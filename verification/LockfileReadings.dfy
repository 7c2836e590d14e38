/** The parser accepts nothing but layouts: every text it reads is one of the tree it answers. */
module LockfileReadings {
  import opened Common
  import opened JsonText
  import opened LockfileSyntax
  import opened LockfileLayouts

  // ---------- trivia ----------

  lemma {:induction false} NewlineIs(src: Text, i: nat)
    requires i <= |src|
    ensures match FindNewline(src, i)
            case Some(n) => i <= n < |src| && src[n] == NEWLINE && NEWLINE !in src[i..n]
            case None => NEWLINE !in src[i..]
    decreases |src| - i
  {
    if i < |src| && src[i] != NEWLINE {
      NewlineIs(src, i + 1);
      match FindNewline(src, i + 1)
      case Some(n) => assert src[i..n] == [src[i]] + src[i + 1..n];
      case None => assert src[i..] == [src[i]] + src[i + 1..];
    }
  }

  lemma {:induction false} CommentEndIs(src: Text, i: nat)
    requires FindCommentEnd(src, i).Some?
    ensures var n := FindCommentEnd(src, i).value;
            i <= n && n + 1 < |src| && src[n] == STAR && src[n + 1] == SLASH
            && forall k :: i <= k < n ==> !(src[k] == STAR && src[k + 1] == SLASH)
    decreases |src| - i
  {
    if !(src[i] == STAR && src[i + 1] == SLASH) { CommentEndIs(src, i + 1); }
  }

  lemma LineCommentRead(src: Text, i: nat, n: nat)
    requires At(src, i, SLASH) && At(src, i + 1, SLASH) && FindNewline(src, i + 2) == Some(n)
    ensures ProperTrivium(LineComment(src[i + 2..n])) && Holds(src, i, ShowTrivium(LineComment(src[i + 2..n])))
    ensures i + |ShowTrivium(LineComment(src[i + 2..n]))| == n + 1
  {
    hide FindNewline;
    NewlineIs(src, i + 2);
    assert src[i..n + 1] == [SLASH, SLASH] + src[i + 2..n] + [NEWLINE];
  }

  lemma BlockCommentRead(src: Text, i: nat, n: nat)
    requires At(src, i, SLASH) && At(src, i + 1, STAR) && FindCommentEnd(src, i + 2) == Some(n)
    ensures ProperTrivium(BlockComment(src[i + 2..n])) && Holds(src, i, ShowTrivium(BlockComment(src[i + 2..n])))
    ensures i + |ShowTrivium(BlockComment(src[i + 2..n]))| == n + 2
  {
    hide FindCommentEnd;
    CommentEndIs(src, i + 2);
    assert src[i..n + 2] == [SLASH, STAR] + src[i + 2..n] + [STAR, SLASH];
  }

  /** The trivium that stands at `i`, unless it is a comment that runs to the end of the text. */
  lemma TriviumRead(src: Text, i: nat) returns (t: Trivium)
    requires i < |src|
    requires IsSpace(src[i]) || (Comment(src, i).Some? && Comment(src, i).value.Ok?
             && (At(src, i + 1, SLASH) ==> FindNewline(src, i + 2).Some?))
    ensures ProperTrivium(t) && Holds(src, i, ShowTrivium(t))
  {
    hide IsSpace, FindNewline, FindCommentEnd;
    if IsSpace(src[i]) {
      BlanksAreSpace(src[i]);
      t := Blank(src[i]);
      assert src[i..i + 1] == [src[i]];
    } else if At(src, i + 1, SLASH) {
      var n := FindNewline(src, i + 2).value;
      LineCommentRead(src, i, n);
      t := LineComment(src[i + 2..n]);
    } else {
      var n := FindCommentEnd(src, i + 2).value;
      BlockCommentRead(src, i, n);
      t := BlockComment(src[i + 2..n]);
    }
  }

  lemma HoldsBoth(src: Text, i: nat, a: Text, b: Text)
    requires Holds(src, i, a) && Holds(src, i + |a|, b)
    ensures Holds(src, i, a + b)
  {
    assert src[i..i + |a| + |b|] == src[i..i + |a|] + src[i + |a|..i + |a| + |b|];
  }

  /** Where trivia ends a token stands, or the text ends. */
  lemma {:induction false} TriviaStops(src: Text, i: nat)
    requires i <= |src| && SkipTrivia(src, i).Ok?
    ensures TokenAt(src, SkipTrivia(src, i).value)
    decreases |src| - i
  {
    hide IsSpace, FindNewline, FindCommentEnd;
    if i < |src| {
      BlanksAreSpace(src[i]);
      if IsSpace(src[i]) {
        TriviaStops(src, i + 1);
      } else if Comment(src, i).Some? {
        TriviaStops(src, Comment(src, i).value.value);
      }
    }
  }

  /** The trivia from `i` on, and the comment that ends the text if one does. */
  lemma {:induction false} GapRead(src: Text, i: nat) returns (gap: Gap, tail: Option<Text>)
    requires i <= |src| && SkipTrivia(src, i).Ok?
    ensures ProperGap(gap) && Holds(src, i, ShowGap(gap))
    ensures tail.None? ==> SkipTrivia(src, i).value == i + |ShowGap(gap)|
    ensures tail.Some? ==> SkipTrivia(src, i).value == |src| && NEWLINE !in tail.value
    ensures tail.Some? ==> src[i + |ShowGap(gap)|..] == ShowTail(tail)
    decreases |src| - i
  {
    hide IsSpace, FindNewline, FindCommentEnd, Comment, SkipTrivia, ShowTrivium, ProperTrivium, Holds, ShowGap;
    NoGap(src, i);
    gap, tail := [], None;
    if i < |src| && (IsSpace(src[i]) || Comment(src, i).Some?) {
      if !IsSpace(src[i]) && At(src, i + 1, SLASH) && FindNewline(src, i + 2).None? {
        tail := Some(src[i + 2..]);
        TailRead(src, i);
      } else {
        if !IsSpace(src[i]) { CommentIsClosed(src, i); }
        var t := TriviumRead(src, i);
        TriviumSkipped(src, i, t);
        var rest;
        rest, tail := GapRead(src, i + |ShowTrivium(t)|);
        gap := [t] + rest;
        GapLonger(t, rest);
        HoldsBoth(src, i, ShowTrivium(t), ShowGap(rest));
      }
    }
  }

  lemma NoGap(src: Text, i: nat)
    requires i <= |src|
    ensures Holds(src, i, ShowGap([])) && ShowGap([]) == []
    ensures i == |src| || (!IsSpace(src[i]) && Comment(src, i).None?) ==> SkipTrivia(src, i) == Ok(i)
  {
  }

  lemma GapLonger(t: Trivium, rest: Gap)
    ensures ShowGap([t] + rest) == ShowTrivium(t) + ShowGap(rest)
  {
    assert ([t] + rest)[1..] == rest;
  }

  lemma CommentIsClosed(src: Text, i: nat)
    requires i < |src| && SkipTrivia(src, i).Ok? && !IsSpace(src[i]) && Comment(src, i).Some?
    ensures Comment(src, i).value.Ok?
  {
    hide IsSpace, Comment;
  }

  lemma TailRead(src: Text, i: nat)
    requires i < |src| && !IsSpace(src[i]) && Comment(src, i).Some? && At(src, i + 1, SLASH)
    requires FindNewline(src, i + 2).None?
    ensures SkipTrivia(src, i) == Ok(|src|) && NEWLINE !in src[i + 2..] && src[i..] == ShowTail(Some(src[i + 2..]))
  {
    hide IsSpace, FindNewline, FindCommentEnd;
    NewlineIs(src, i + 2);
    assert src[i..] == [SLASH, SLASH] + src[i + 2..];
  }

  /** Trivia before the end of the text is a gap. */
  lemma InnerGap(src: Text, i: nat) returns (gap: Gap)
    requires i <= |src| && SkipTrivia(src, i).Ok? && SkipTrivia(src, i).value < |src|
    ensures ProperGap(gap) && Holds(src, i, ShowGap(gap)) && SkipTrivia(src, i).value == i + |ShowGap(gap)|
    ensures TokenAt(src, SkipTrivia(src, i).value)
  {
    hide SkipTrivia, ShowGap, ProperGap, TokenAt;
    var tail;
    gap, tail := GapRead(src, i);
    TriviaStops(src, i);
  }

  // ---------- string literals ----------

  lemma DigitRead(u: CodeUnit) returns (d: HexDigitShown)
    requires HexValue(u).Some?
    ensures d.value < 16 && HexValue(u) == Some(d.value) && ShowDigit(d) == u
  {
    d := HexDigitShown(HexValue(u).value, u < 0x61);
  }

  /** The first letter of a literal's body. */
  lemma LetterRead(body: Text) returns (l: Letter)
    requires body != [] && Unquote(body).Some?
    ensures ProperLetter(l) && |ShowLetter(l)| <= |body| && body == ShowLetter(l) + body[|ShowLetter(l)|..]
    ensures Unquote(body) == Prepend(LetterValue(l), Unquote(body[|ShowLetter(l)|..]))
  {
    hide HexValue;
    if body[0] != BACKSLASH {
      l := Plain(body[0]);
    } else if body[1] != LOWER_U {
      l := Short(body[1]);
    } else {
      var a := DigitRead(body[2..6][0]);
      var b := DigitRead(body[2..6][1]);
      var c := DigitRead(body[2..6][2]);
      var d := DigitRead(body[2..6][3]);
      l := Long(a, b, c, d);
      assert body[..6] == ShowLetter(l);
    }
  }

  lemma {:induction false} LettersReadBack(body: Text) returns (ls: seq<Letter>)
    requires Unquote(body).Some?
    ensures ProperLetters(ls) && ShowLetters(ls) == body && Some(Value(ls)) == Unquote(body)
    decreases |body|
  {
    if body == [] {
      ls := [];
      assert Value(ls) == [];
    } else {
      var l := LetterRead(body);
      hide Unquote, ShowLetter, LetterValue, ProperLetter;
      LetterTakesSpace(l);
      var rest := LettersReadBack(body[|ShowLetter(l)|..]);
      ls := [l] + rest;
      assert ls[1..] == rest;
      assert Value(ls) == [LetterValue(l)] + Value(rest);
    }
  }

  lemma LetterTakesSpace(l: Letter)
    requires ProperLetter(l)
    ensures |ShowLetter(l)| > 0
  {
  }

  lemma StringReadBack(src: Text, l: Literal) returns (ls: seq<Letter>)
    requires Reads(src, l) && src[l.end - 1] == QUOTE
    ensures ProperLetters(ls) && Holds(src, l.start, ShowString(ls)) && l.start + |ShowString(ls)| == l.end
    ensures Value(ls) == l.value
  {
    hide Unquote, ShowLetters, Value;
    var raw := src[l.start..l.end];
    ls := LettersReadBack(raw[1..|raw| - 1]);
    assert raw == [QUOTE] + raw[1..|raw| - 1] + [QUOTE];
  }

  // ---------- values ----------

  lemma StringIs(src: Text, p: nat)
    requires p <= |src| && TokenAt(src, p) && ParseString(src, p).Ok?
    ensures var l := ParseString(src, p).value.node;
            l.start == p && Reads(src, l) && src[l.end - 1] == QUOTE && ParseString(src, p).value.next == l.end
  {
    hide SkipTrivia, Reads, TokenAt;
    TokenStops(src, p);
  }

  lemma KeyReadBack(src: Text, p: nat) returns (key: seq<Letter>, colon: Gap)
    requires p <= |src| && TokenAt(src, p) && ParseKey(src, p).Ok?
    ensures ProperLetters(key) && ProperGap(colon) && Holds(src, p, ShowKey(key, colon))
    ensures ParseKey(src, p).value == Parsed(Value(key), p + |ShowKey(key, colon)|)
  {
    hide SkipTrivia, ParseString, TokenAt, ShowGap, ShowString, ProperGap, ProperLetters, Value, Reads, Holds;
    StringIs(src, p);
    var l := ParseString(src, p).value.node;
    key := StringReadBack(src, l);
    colon := InnerGap(src, l.end);
    var c := l.end + |ShowGap(colon)|;
    OneHolds(src, c);
    HoldsBoth(src, l.end, ShowGap(colon), [src[c]]);
    HoldsBoth(src, p, ShowString(key), ShowGap(colon) + [COLON]);
  }

  lemma OneHolds(src: Text, i: nat)
    requires i < |src|
    ensures Holds(src, i, [src[i]])
  {
  }

  /** Behind an atom stands no comment without whitespace before it. */
  lemma AfterFollows(src: Text, end: nat, v: Layout, after: Gap)
    requires Holds(src, end, ShowGap(after)) && ProperGap(after)
    requires v.LAtom? ==> end == |src| || (end < |src| && EndsAtom(src[end]))
    ensures Follows(v, after)
  {
    if v.LAtom? && after != [] {
      TriviumShows(after[0]);
      HoldsAt(src, end, ShowGap(after), 0);
      SlashEndsNothing();
    }
  }

  lemma TriviumShows(t: Trivium)
    ensures ShowTrivium(t) != [] && (!t.Blank? ==> ShowTrivium(t)[0] == SLASH)
  {
  }

  lemma SlashEndsNothing()
    ensures !EndsAtom(SLASH)
  {
  }

  lemma {:induction false} AtomRead(src: Text, i: nat)
    requires i <= |src|
    ensures var end := ScanAtom(src, i);
            (end == |src| || EndsAtom(src[end])) && forall k :: i <= k < end ==> !EndsAtom(src[k])
    decreases |src| - i
  {
    hide EndsAtom;
    if i < |src| && !EndsAtom(src[i]) { AtomRead(src, i + 1); }
  }

  lemma AtomReadBack(src: Text, p: nat) returns (v: Layout)
    requires p < |src| && TokenAt(src, p) && ParseValue(src, p).Ok?
    requires src[p] != QUOTE && src[p] != LEFT_BRACE && src[p] != LEFT_BRACKET
    ensures v.LAtom? && Proper(v) && Holds(src, p, Show(v))
    ensures ParseValue(src, p).value == Parsed(Tree(v, p), p + |Show(v)|)
    ensures var end := p + |Show(v)|; end == |src| || (end < |src| && EndsAtom(src[end]))
  {
    hide ParseObject, ParseElements, ParseString, SkipTrivia, IsSpace, ScanAtom;
    TokenStops(src, p);
    AtomRead(src, p);
    var end := ScanAtom(src, p);
    v := LAtom(src[p..end]);
    forall k | 0 <= k < end - p
      ensures src[p..end][k] !in BLANKS && src[p..end][k] != 0x2C && src[p..end][k] != 0x7D && src[p..end][k] != 0x5D
    {
      BlanksAreSpace(src[p + k]);
    }
  }

  lemma {:induction false} ValueReadBack(src: Text, i: nat) returns (gap: Gap, v: Layout)
    requires i <= |src| && ParseValue(src, i).Ok?
    ensures ProperGap(gap) && Holds(src, i, ShowGap(gap)) && Proper(v) && Holds(src, i + |ShowGap(gap)|, Show(v))
    ensures var p := i + |ShowGap(gap)|;
            SkipTrivia(src, i) == Ok(p) && ParseValue(src, i).value == Parsed(Tree(v, p), p + |Show(v)|)
    ensures var end := i + |ShowGap(gap)| + |Show(v)|;
            v.LAtom? ==> end == |src| || (end < |src| && EndsAtom(src[end]))
    decreases |src| - i, 4
  {
    hide SkipTrivia, TokenAt, ShowGap, ProperGap, Holds, ProperAtom, EndsAtom, ParseValue, Proper, Show, Tree;
    ValueStartsInside(src, i);
    gap := InnerGap(src, i);
    var p := i + |ShowGap(gap)|;
    TokenStops(src, p);
    ValueSkips(src, i, p);
    if src[p] == QUOTE {
      v := StringValueReadBack(src, p);
    } else if src[p] == LEFT_BRACE {
      v := ObjectReadBack(src, p);
    } else if src[p] == LEFT_BRACKET {
      v := ArrayReadBack(src, p);
    } else {
      v := AtomReadBack(src, p);
    }
  }

  lemma ValueStartsInside(src: Text, i: nat)
    requires i <= |src| && ParseValue(src, i).Ok?
    ensures SkipTrivia(src, i).Ok? && SkipTrivia(src, i).value < |src|
  {
    hide SkipTrivia, ParseString, ParseObject, ParseElements;
  }

  lemma StringValueReadBack(src: Text, p: nat) returns (v: Layout)
    requires p < |src| && TokenAt(src, p) && src[p] == QUOTE && ParseValue(src, p).Ok?
    ensures v.LString? && Proper(v) && Holds(src, p, Show(v))
    ensures ParseValue(src, p).value == Parsed(Tree(v, p), p + |Show(v)|)
  {
    hide SkipTrivia, TokenAt, ParseString, ParseObject, ParseElements, ScanAtom, Reads, Holds, ShowString, Value,
      ProperLetters;
    TokenStops(src, p);
    StringIs(src, p);
    var ls := StringReadBack(src, ParseString(src, p).value.node);
    v := LString(ls);
  }

  lemma {:induction false} ObjectReadBack(src: Text, p: nat) returns (v: Layout)
    requires p < |src| && TokenAt(src, p) && src[p] == LEFT_BRACE && ParseValue(src, p).Ok?
    ensures v.LObject? && Proper(v) && Holds(src, p, Show(v))
    ensures ParseValue(src, p).value == Parsed(Tree(v, p), p + |Show(v)|)
    decreases |src| - p, 3
  {
    hide SkipTrivia, TokenAt, ParseString, ParseMembers, ParseElements, ScanAtom, Holds, ShowMembers, ProperMembers,
      MembersTree;
    TokenStops(src, p);
    var ms := MembersReadBack(src, p + 1);
    var end := p + 1 + |ShowMembers(ms)|;
    v := LObject(ms);
    OneHolds(src, p);
    OneHolds(src, end);
    HoldsBoth(src, p + 1, ShowMembers(ms), [RIGHT_BRACE]);
    HoldsBoth(src, p, [LEFT_BRACE], ShowMembers(ms) + [RIGHT_BRACE]);
  }

  lemma {:induction false} ArrayReadBack(src: Text, p: nat) returns (v: Layout)
    requires p < |src| && TokenAt(src, p) && src[p] == LEFT_BRACKET && ParseValue(src, p).Ok?
    ensures v.LArray? && Proper(v) && Holds(src, p, Show(v))
    ensures ParseValue(src, p).value == Parsed(Tree(v, p), p + |Show(v)|)
    decreases |src| - p, 3
  {
    hide SkipTrivia, TokenAt, ParseString, ParseMembers, ParseElements, ScanAtom, Holds, ShowElements, ProperElements,
      ElementsTree;
    TokenStops(src, p);
    var es := ElementsReadBack(src, p + 1);
    var end := p + 1 + |ShowElements(es)|;
    v := LArray(es);
    OneHolds(src, p);
    OneHolds(src, end);
    HoldsBoth(src, p + 1, ShowElements(es), [RIGHT_BRACKET]);
    HoldsBoth(src, p, [LEFT_BRACKET], ShowElements(es) + [RIGHT_BRACKET]);
  }

  /** A value with the trivia around it, from `i` to the token at `q`. */
  lemma {:induction false} ItemReadBack(src: Text, i: nat) returns (gap: Gap, v: Layout, after: Gap)
    requires i <= |src| && ParseValue(src, i).Ok?
    requires SkipTrivia(src, ParseValue(src, i).value.next).Ok?
    requires SkipTrivia(src, ParseValue(src, i).value.next).value < |src|
    ensures ProperGap(gap) && Proper(v) && ProperGap(after) && Follows(v, after)
    ensures var p := i + |ShowGap(gap)|;
            var end := p + |Show(v)|;
            && SkipTrivia(src, i) == Ok(p) && ParseValue(src, i).value == Parsed(Tree(v, p), end)
            && SkipTrivia(src, end) == Ok(end + |ShowGap(after)|)
            && Holds(src, i, ShowGap(gap)) && Holds(src, p, Show(v)) && Holds(src, end, ShowGap(after))
    decreases |src| - i, 5
  {
    hide SkipTrivia, ParseValue, TokenAt, ShowGap, ProperGap, Holds, EndsAtom, Proper, Show, Tree, Follows;
    gap, v := ValueReadBack(src, i);
    var end := i + |ShowGap(gap)| + |Show(v)|;
    after := InnerGap(src, end);
    AfterFollows(src, end, v, after);
  }

  lemma {:induction false} ElementsReadBack(src: Text, i: nat) returns (es: LElements)
    requires i <= |src| && SkipTrivia(src, i).Ok? && ParseElements(src, SkipTrivia(src, i).value).Ok?
    ensures ProperElements(es) && Holds(src, i, ShowElements(es))
    ensures ParseElements(src, SkipTrivia(src, i).value).value == Parsed(ElementsTree(es, i), i + |ShowElements(es)|)
    decreases |src| - i, 6
  {
    hide SkipTrivia, ParseValue, ParseElements, TokenAt, ShowGap, ProperGap, Holds, Proper, Show, Tree, Follows;
    var p := SkipTrivia(src, i).value;
    ElementsStartInside(src, p);
    var first := InnerGap(src, i);
    if src[p] == RIGHT_BRACKET {
      es := LNoElement(first);
      Emptied(src, p);
    } else {
      TokenStops(src, p);
      ValueSkips(src, i, p);
      ElementsParts(src, p);
      var gap, v, after := ItemReadBack(src, i);
      var end := p + |Show(v)|;
      var q := end + |ShowGap(after)|;
      if src[q] == COMMA {
        var rest := ElementsReadBack(src, q + 1);
        es := LElement(gap, v, after, rest);
        OneHolds(src, q);
        HoldsBoth(src, q, [COMMA], ShowElements(rest));
        HoldsBoth(src, end, ShowGap(after), [COMMA] + ShowElements(rest));
        ElementHolds(src, i, gap, v, ShowGap(after) + ([COMMA] + ShowElements(rest)));
      } else {
        es := LLastElement(gap, v, after);
        ElementHolds(src, i, gap, v, ShowGap(after));
      }
    }
  }

  lemma ElementHolds(src: Text, i: nat, gap: Gap, v: Layout, more: Text)
    requires Proper(v) && Holds(src, i, ShowGap(gap)) && Holds(src, i + |ShowGap(gap)|, Show(v))
    requires Holds(src, i + |ShowGap(gap)| + |Show(v)|, more)
    ensures Holds(src, i, ShowGap(gap) + (Show(v) + more))
  {
    hide Holds, ShowGap, Show, Proper;
    HoldsBoth(src, i + |ShowGap(gap)|, Show(v), more);
    HoldsBoth(src, i, ShowGap(gap), Show(v) + more);
  }

  lemma ElementsStartInside(src: Text, p: nat)
    requires p <= |src| && ParseElements(src, p).Ok?
    ensures p < |src|
  {
    if !At(src, p, RIGHT_BRACKET) { ValueStartsInside(src, p); }
  }

  /** What reading elements from a value on has read. */
  lemma ElementsParts(src: Text, p: nat)
    requires p < |src| && src[p] != RIGHT_BRACKET && ParseElements(src, p).Ok?
    ensures ParseValue(src, p).Ok?
    ensures var v := ParseValue(src, p).value;
            && SkipTrivia(src, v.next).Ok? && SkipTrivia(src, v.next).value < |src|
            && var q := SkipTrivia(src, v.next).value;
            && (src[q] == COMMA || src[q] == RIGHT_BRACKET)
            && (src[q] == COMMA ==>
                 && SkipTrivia(src, q + 1).Ok? && ParseElements(src, SkipTrivia(src, q + 1).value).Ok?
                 && var rest := ParseElements(src, SkipTrivia(src, q + 1).value).value;
                 ParseElements(src, p).value == Parsed(Element(v.node, rest.node), rest.next))
            && (src[q] == RIGHT_BRACKET ==> ParseElements(src, p).value == Parsed(Element(v.node, NoElement), q))
  {
    hide SkipTrivia, ParseValue;
  }

  lemma {:induction false} MembersReadBack(src: Text, i: nat) returns (ms: LMembers)
    requires i <= |src| && SkipTrivia(src, i).Ok? && ParseMembers(src, SkipTrivia(src, i).value).Ok?
    ensures ProperMembers(ms) && Holds(src, i, ShowMembers(ms))
    ensures ParseMembers(src, SkipTrivia(src, i).value).value == Parsed(MembersTree(ms, i), i + |ShowMembers(ms)|)
    decreases |src| - i, 6
  {
    hide SkipTrivia, ParseKey, ParseValue, ParseMembers, TokenAt, ShowGap, ProperGap, Holds, Proper, Show, Tree,
      Follows, ShowKey, ProperLetters, Value;
    var p := SkipTrivia(src, i).value;
    MembersStartInside(src, p);
    var gap := InnerGap(src, i);
    if src[p] == RIGHT_BRACE {
      ms := LNoMember(gap);
      Emptied(src, p);
    } else {
      MembersParts(src, p);
      var key, colon := KeyReadBack(src, p);
      var inside := p + |ShowKey(key, colon)|;
      var before, v, after := ItemReadBack(src, inside);
      var start := inside + |ShowGap(before)|;
      var end := start + |Show(v)|;
      var q := end + |ShowGap(after)|;
      if src[q] == COMMA {
        var rest := MembersReadBack(src, q + 1);
        ms := LMember(gap, key, colon, before, v, after, rest);
        OneHolds(src, q);
        HoldsBoth(src, q, [COMMA], ShowMembers(rest));
        HoldsBoth(src, end, ShowGap(after), [COMMA] + ShowMembers(rest));
        MemberHolds(src, i, gap, key, colon, before, v, ShowGap(after) + ([COMMA] + ShowMembers(rest)));
      } else {
        ms := LLastMember(gap, key, colon, before, v, after);
        MemberHolds(src, i, gap, key, colon, before, v, ShowGap(after));
      }
    }
  }

  lemma MemberHolds(src: Text, i: nat, gap: Gap, key: seq<Letter>, colon: Gap, before: Gap, v: Layout, more: Text)
    requires ProperLetters(key) && Proper(v) && Holds(src, i, ShowGap(gap))
    requires var p := i + |ShowGap(gap)|;
             var inside := p + |ShowKey(key, colon)|;
             var start := inside + |ShowGap(before)|;
             && Holds(src, p, ShowKey(key, colon)) && Holds(src, inside, ShowGap(before))
             && Holds(src, start, Show(v)) && Holds(src, start + |Show(v)|, more)
    ensures Holds(src, i, ShowGap(gap) + (ShowKey(key, colon) + (ShowGap(before) + (Show(v) + more))))
  {
    hide Holds, ShowGap, ShowKey, Show, Proper, ProperLetters;
    var p := i + |ShowGap(gap)|;
    var inside := p + |ShowKey(key, colon)|;
    var start := inside + |ShowGap(before)|;
    HoldsBoth(src, start, Show(v), more);
    HoldsBoth(src, inside, ShowGap(before), Show(v) + more);
    HoldsBoth(src, p, ShowKey(key, colon), ShowGap(before) + (Show(v) + more));
    HoldsBoth(src, i, ShowGap(gap), ShowKey(key, colon) + (ShowGap(before) + (Show(v) + more)));
  }

  lemma MembersStartInside(src: Text, p: nat)
    requires p <= |src| && ParseMembers(src, p).Ok?
    ensures p < |src|
  {
    hide ScanString;
  }

  lemma MembersParts(src: Text, p: nat)
    requires p < |src| && src[p] != RIGHT_BRACE && ParseMembers(src, p).Ok?
    ensures ParseKey(src, p).Ok? && ParseValue(src, ParseKey(src, p).value.next).Ok?
    ensures var key := ParseKey(src, p).value;
            var v := ParseValue(src, key.next).value;
            && SkipTrivia(src, v.next).Ok? && SkipTrivia(src, v.next).value < |src|
            && var q := SkipTrivia(src, v.next).value;
            && (src[q] == COMMA || src[q] == RIGHT_BRACE)
            && (src[q] == COMMA ==>
                 && SkipTrivia(src, q + 1).Ok? && ParseMembers(src, SkipTrivia(src, q + 1).value).Ok?
                 && var rest := ParseMembers(src, SkipTrivia(src, q + 1).value).value;
                 ParseMembers(src, p).value == Parsed(Member(key.node, v.node, rest.node), rest.next))
            && (src[q] == RIGHT_BRACE ==>
                 ParseMembers(src, p).value == Parsed(Member(key.node, v.node, NoMember), q))
  {
    hide SkipTrivia, ParseKey, ParseValue;
  }

  // ---------- whole files ----------

  /** The file shows the text, and the tree is that of its root. */
  ghost predicate LaysOut(file: FileLayout, src: Text, t: Syntax) {
    ProperFile(file) && ShowFile(file) == src && Tree(file.root, |ShowGap(file.before)|) == t
  }

  /** Exactly the layouts of a tree parse to it. */
  lemma ParsesExactlyLayouts(src: Text, t: Syntax)
    ensures ParseFile(src) == Ok(t) <==> exists file :: LaysOut(file, src, t)
  {
    hide ParseFile, Show, Tree, ShowGap, Proper, ProperGap, ShowFile;
    if ParseFile(src) == Ok(t) {
      var file := FileReadBack(src);
      assert LaysOut(file, src, t);
    }
    if file :| LaysOut(file, src, t) {
      LayoutParses(file);
    }
  }

  lemma FileReadBack(src: Text) returns (file: FileLayout)
    requires ParseFile(src).Ok?
    ensures ProperFile(file) && ShowFile(file) == src
    ensures Proper(file.root) && ParseFile(src) == Ok(Tree(file.root, |ShowGap(file.before)|))
  {
    hide SkipTrivia, ParseValue, ShowGap, ProperGap, Holds, EndsAtom, Proper, Show, Tree, Follows, ShowTail;
    var before, v := ValueReadBack(src, 0);
    var p := |ShowGap(before)|;
    var end := p + |Show(v)|;
    var after, tail := GapRead(src, end);
    AfterFollows(src, end, v, after);
    var last := end + |ShowGap(after)|;
    HoldsInside(src, end, ShowGap(after));
    TailHolds(src, last, after, tail, v, end);
    file := FileLayout(before, v, after, tail);
    HoldsBoth(src, end, ShowGap(after), ShowTail(tail));
    HoldsBoth(src, p, Show(v), ShowGap(after) + ShowTail(tail));
    HoldsBoth(src, 0, ShowGap(before), Show(v) + (ShowGap(after) + ShowTail(tail)));
    WholeHolds(src, ShowFile(file));
  }

  lemma HoldsInside(src: Text, i: nat, part: Text)
    requires Holds(src, i, part)
    ensures i + |part| <= |src|
  {
  }

  lemma WholeHolds(src: Text, shown: Text)
    requires Holds(src, 0, shown) && |shown| == |src|
    ensures shown == src
  {
    assert src[0..|src|] == src;
  }

  lemma TailHolds(src: Text, last: nat, after: Gap, tail: Option<Text>, v: Layout, end: nat)
    requires last <= |src| && last == end + |ShowGap(after)|
    requires tail.None? ==> last == |src|
    requires tail.Some? ==> src[last..] == ShowTail(tail)
    requires v.LAtom? ==> end == |src| || (end < |src| && EndsAtom(src[end]))
    ensures Holds(src, last, ShowTail(tail)) && last + |ShowTail(tail)| == |src|
    ensures tail.Some? && v.LAtom? ==> after != []
  {
    assert src[last..|src|] == src[last..];
    SlashEndsNothing();
    if tail.Some? { assert src[last] == src[last..][0] == SLASH; }
  }
}

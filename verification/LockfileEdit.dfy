/**
  Replacing one recorded string literal of a lockfile: the edited text parses to the same tree
  with that one literal changed and every later span moved by the difference in length.
 */
module LockfileEdit {
  import opened Common
  import opened JsonText
  import opened LockfileSyntax

  datatype Edit = Edit(start: nat, end: nat, value: Text)

  function Splice(src: Text, edit: Edit): Text
    requires edit.start <= edit.end <= |src|
  {
    src[..edit.start] + Stringify(edit.value) + src[edit.end..]
  }

  /** The edit replaces a non-empty stretch that starts with a quote. */
  ghost predicate Fits(src: Text, edit: Edit) {
    edit.start < edit.end <= |src| && src[edit.start] == QUOTE
  }

  /** Where a position outside the replaced stretch ends up. */
  function Moved(edit: Edit, p: nat): nat {
    if p <= edit.start then p
    else if p < edit.end then edit.start
    else p - edit.end + edit.start + |Stringify(edit.value)|
  }

  function MoveLiteral(edit: Edit, l: Literal): Literal {
    if l.start == edit.start then Literal(edit.start, edit.start + |Stringify(edit.value)|, edit.value)
    else Literal(Moved(edit, l.start), Moved(edit, l.end), l.value)
  }

  // ---------- trees with their literals mapped ----------

  function MapLiterals(t: Syntax, g: Literal -> Literal): Syntax {
    match t
    case Obj(members) => Obj(MapMembers(members, g))
    case Arr(elements) => Arr(MapElements(elements, g))
    case Str(literal) => Str(g(literal))
    case Atom(_) => t
  }

  function MapMembers(ms: Members, g: Literal -> Literal): Members {
    match ms
    case NoMember => NoMember
    case Member(key, value, rest) => Member(key, MapLiterals(value, g), MapMembers(rest, g))
  }

  function MapElements(es: Elements, g: Literal -> Literal): Elements {
    match es
    case NoElement => NoElement
    case Element(value, rest) => Element(MapLiterals(value, g), MapElements(rest, g))
  }

  // ---------- what the edit leaves alone ----------

  /** A stretch that the replaced one does not meet: before it or after it. */
  ghost predicate Beside(edit: Edit, from: nat, to: nat) {
    from <= to && (to <= edit.start || edit.end <= from)
  }

  lemma UnitKept(src: Text, edit: Edit, p: nat)
    requires Fits(src, edit) && Beside(edit, p, p) && p <= |src|
    ensures Moved(edit, p) <= |Splice(src, edit)|
    ensures p == |src| <==> Moved(edit, p) == |Splice(src, edit)|
    ensures p < |src| ==> Splice(src, edit)[Moved(edit, p)] == src[p]
  {
  }

  lemma MovedNext(src: Text, edit: Edit, p: nat)
    requires Fits(src, edit) && Beside(edit, p, p + 1)
    ensures Moved(edit, p + 1) == Moved(edit, p) + 1
  {
  }

  lemma AtKept(src: Text, edit: Edit, p: nat, u: CodeUnit)
    requires Fits(src, edit) && Beside(edit, p, p) && p <= |src|
    ensures At(Splice(src, edit), Moved(edit, p), u) == At(src, p, u)
  {
    UnitKept(src, edit, p);
  }

  lemma SliceKept(src: Text, edit: Edit, from: nat, to: nat)
    requires Fits(src, edit) && Beside(edit, from, to) && to <= |src|
    ensures Moved(edit, from) + to - from == Moved(edit, to)
    ensures Moved(edit, to) <= |Splice(src, edit)|
    ensures Splice(src, edit)[Moved(edit, from)..Moved(edit, to)] == src[from..to]
  {
    var dst, a, b := Splice(src, edit), Moved(edit, from), Moved(edit, to);
    forall k | 0 <= k < to - from ensures dst[a..b][k] == src[from..to][k] {
      assert Moved(edit, from + k) == a + k;
      UnitKept(src, edit, from + k);
    }
  }

  lemma {:induction false} FindNewlineKept(src: Text, edit: Edit, i: nat)
    requires Fits(src, edit) && i <= |src|
    requires match FindNewline(src, i) case Some(n) => Beside(edit, i, n + 1) case None => edit.end <= i
    ensures match FindNewline(src, i)
            case Some(n) => FindNewline(Splice(src, edit), Moved(edit, i)) == Some(Moved(edit, n))
            case None => FindNewline(Splice(src, edit), Moved(edit, i)) == None
    decreases |src| - i
  {
    UnitKept(src, edit, i);
    if i < |src| && src[i] != NEWLINE { FindNewlineKept(src, edit, i + 1); }
  }

  lemma {:induction false} FindCommentEndKept(src: Text, edit: Edit, i: nat)
    requires Fits(src, edit) && FindCommentEnd(src, i).Some?
    requires Beside(edit, i, FindCommentEnd(src, i).value + 2)
    ensures FindCommentEnd(Splice(src, edit), Moved(edit, i)) == Some(Moved(edit, FindCommentEnd(src, i).value))
    decreases |src| - i
  {
    UnitKept(src, edit, i);
    UnitKept(src, edit, i + 1);
    if !(src[i] == STAR && src[i + 1] == SLASH) { FindCommentEndKept(src, edit, i + 1); }
  }

  lemma NoCommentKept(src: Text, edit: Edit, i: nat)
    requires Fits(src, edit) && i < |src| && Beside(edit, i, i) && Comment(src, i).None?
    ensures Moved(edit, i) < |Splice(src, edit)| && Comment(Splice(src, edit), Moved(edit, i)) == None
  {
    hide Splice, Moved;
    UnitKept(src, edit, i);
    if i != edit.start {
      MovedNext(src, edit, i);
      AtKept(src, edit, i + 1, SLASH);
      AtKept(src, edit, i + 1, STAR);
    }
  }

  lemma CommentKept(src: Text, edit: Edit, i: nat)
    requires Fits(src, edit) && i < |src| && Comment(src, i).Some? && Comment(src, i).value.Ok?
    requires Beside(edit, i, Comment(src, i).value.value)
    ensures Moved(edit, i) < |Splice(src, edit)|
    ensures Comment(Splice(src, edit), Moved(edit, i)) == Some(Ok(Moved(edit, Comment(src, i).value.value)))
  {
    hide Splice, Moved, FindNewline, FindCommentEnd;
    UnitKept(src, edit, i);
    UnitKept(src, edit, |src|);
    MovedNext(src, edit, i);
    AtKept(src, edit, i + 1, SLASH);
    AtKept(src, edit, i + 1, STAR);
    MovedNext(src, edit, i + 1);
    if At(src, i + 1, SLASH) {
      FindNewlineKept(src, edit, i + 2);
      if FindNewline(src, i + 2).Some? { MovedNext(src, edit, FindNewline(src, i + 2).value); }
    } else {
      FindCommentEndKept(src, edit, i + 2);
      MovedNext(src, edit, FindCommentEnd(src, i + 2).value);
      MovedNext(src, edit, FindCommentEnd(src, i + 2).value + 1);
    }
  }

  lemma {:induction false} TriviaKept(src: Text, edit: Edit, i: nat)
    requires Fits(src, edit) && i <= |src| && SkipTrivia(src, i).Ok?
    requires Beside(edit, i, SkipTrivia(src, i).value)
    ensures Moved(edit, i) <= |Splice(src, edit)|
    ensures SkipTrivia(Splice(src, edit), Moved(edit, i)) == Ok(Moved(edit, SkipTrivia(src, i).value))
    decreases |src| - i
  {
    hide Splice, Moved, Comment, IsSpace;
    UnitKept(src, edit, i);
    if i < |src| {
      if IsSpace(src[i]) {
        TriviaKept(src, edit, i + 1);
        MovedNext(src, edit, i);
      } else if Comment(src, i).None? {
        NoCommentKept(src, edit, i);
      } else {
        CommentKept(src, edit, i);
        TriviaKept(src, edit, Comment(src, i).value.value);
      }
    }
  }

  lemma {:induction false} ScanAtomKept(src: Text, edit: Edit, i: nat)
    requires Fits(src, edit) && i <= |src| && Beside(edit, i, ScanAtom(src, i))
    ensures Moved(edit, i) <= |Splice(src, edit)|
    ensures ScanAtom(Splice(src, edit), Moved(edit, i)) == Moved(edit, ScanAtom(src, i))
    decreases |src| - i
  {
    UnitKept(src, edit, i);
    if i < |src| && !EndsAtom(src[i]) { ScanAtomKept(src, edit, i + 1); }
  }

  lemma {:induction false} ScanStringKept(src: Text, edit: Edit, i: nat)
    requires Fits(src, edit) && ScanString(src, i).Ok? && Beside(edit, i, ScanString(src, i).value)
    ensures ScanString(Splice(src, edit), Moved(edit, i)) == Ok(Moved(edit, ScanString(src, i).value))
    decreases |src| - i
  {
    hide Splice, Moved;
    UnitKept(src, edit, i);
    if src[i] == BACKSLASH {
      MovedNext(src, edit, i);
      MovedNext(src, edit, i + 1);
      ScanStringKept(src, edit, i + 2);
    } else {
      MovedNext(src, edit, i);
      if src[i] != QUOTE { ScanStringKept(src, edit, i + 1); }
    }
  }

  /** A string away from the edit is read as before, at its new place. */
  lemma StringKept(src: Text, edit: Edit, i: nat)
    requires Fits(src, edit) && i <= |src| && ParseString(src, i).Ok?
    requires Beside(edit, i, ParseString(src, i).value.next)
    ensures Moved(edit, i) <= |Splice(src, edit)|
    ensures ParseString(src, i).value.node.start != edit.start
    ensures ParseString(Splice(src, edit), Moved(edit, i))
         == Ok(Parsed(MoveLiteral(edit, ParseString(src, i).value.node), Moved(edit, ParseString(src, i).value.next)))
  {
    hide Splice, Moved, SkipTrivia, ScanString, ParseLiteral;
    var start, end := SkipTrivia(src, i).value, ParseString(src, i).value.next;
    TriviaKept(src, edit, i);
    AtKept(src, edit, start, QUOTE);
    MovedNext(src, edit, start);
    ScanStringKept(src, edit, start + 1);
    SliceKept(src, edit, start, end);
  }

  lemma MovedBefore(edit: Edit, p: nat)
    requires p <= edit.start
    ensures Moved(edit, p) == p
  {
  }

  lemma MovedEnd(edit: Edit)
    requires edit.start < edit.end
    ensures Moved(edit, edit.end) == edit.start + |Stringify(edit.value)|
  {
  }

  lemma SpliceHolds(src: Text, edit: Edit)
    requires Fits(src, edit)
    ensures Holds(Splice(src, edit), edit.start, Stringify(edit.value))
  {
  }

  /** The replaced literal reads back as the new value. */
  lemma NewStringRead(src: Text, edit: Edit, i: nat)
    requires Fits(src, edit) && i <= |src| && SkipTrivia(src, i) == Ok(edit.start)
    ensures ParseString(Splice(src, edit), i)
         == Ok(Parsed(Literal(edit.start, edit.start + |Stringify(edit.value)|, edit.value),
                      edit.start + |Stringify(edit.value)|))
  {
    hide ScanString, SkipTrivia, Quoted, ParseLiteral, Splice, Moved;
    var dst, s, w := Splice(src, edit), edit.start, edit.value;
    TriviaKept(src, edit, i);
    AtKept(src, edit, s, QUOTE);
    MovedBefore(edit, i);
    MovedBefore(edit, s);
    SpliceHolds(src, edit);
    var body := Quoted(w) + [QUOTE];
    assert Stringify(w) == [QUOTE] + body;
    HoldsParts(dst, s, [QUOTE], body);
    ScanFindsEnd(dst, s + 1, w);
    assert dst[s..s + |Stringify(w)|] == Stringify(w);
    StringifyRoundTrip(w);
  }

  // ---------- the whole grammar ----------

  /** The edit replaces one of these literals. */
  ghost predicate Replaces(edit: Edit, ls: seq<Literal>) {
    exists l :: l in ls && l.start == edit.start && l.end == edit.end
  }

  lemma ReplacesWithin(src: Text, edit: Edit, ls: seq<Literal>, lo: nat, hi: nat)
    requires Replaces(edit, ls) && InOrder(src, ls, lo, hi)
    ensures lo <= edit.start < edit.end <= hi && src[edit.start] == QUOTE
  {
  }

  lemma ReplacesConcat(edit: Edit, a: seq<Literal>, b: seq<Literal>)
    ensures Replaces(edit, a + b) <==> Replaces(edit, a) || Replaces(edit, b)
  {
  }

  /** Skipping trivia twice is skipping it once. */
  lemma {:induction false} TriviaStops(src: Text, i: nat)
    requires i <= |src| && SkipTrivia(src, i).Ok?
    ensures SkipTrivia(src, SkipTrivia(src, i).value) == SkipTrivia(src, i)
    decreases |src| - i
  {
    if i < |src| {
      if IsSpace(src[i]) {
        TriviaStops(src, i + 1);
      } else if Comment(src, i).Some? {
        TriviaStops(src, Comment(src, i).value.value);
      }
    }
  }

  lemma {:induction false} ValueEdited(src: Text, edit: Edit, i: nat)
    requires Fits(src, edit) && i <= |src| && ParseValue(src, i).Ok?
    requires var v := ParseValue(src, i).value; Beside(edit, i, v.next) || Replaces(edit, Literals(v.node))
    ensures Moved(edit, i) <= |Splice(src, edit)|
    ensures ParseValue(Splice(src, edit), Moved(edit, i))
         == Ok(Parsed(MapLiterals(ParseValue(src, i).value.node, l => MoveLiteral(edit, l)),
           Moved(edit, ParseValue(src, i).value.next)))
    decreases |src| - i, 2
  {
    hide Splice, Moved, Stringify, SkipTrivia, ScanAtom, ScanString, ParseLiteral, ParseElements, ParseObject;
    var v := ParseValue(src, i).value;
    var p := SkipTrivia(src, i).value;
    if At(src, p, QUOTE) {
      TriviaStops(src, i);
      var l := ParseString(src, p).value.node;
      assert Literals(v.node) == [l] && l.start == p;
      TriviaKept(src, edit, i);
      AtKept(src, edit, p, QUOTE);
      if Beside(edit, i, v.next) {
        StringKept(src, edit, p);
      } else {
        NewStringRead(src, edit, p);
        MovedBefore(edit, i);
        MovedBefore(edit, p);
        MovedEnd(edit);
      }
    } else {
      AfterTrivia(src, edit, i);
    }
  }

  lemma {:induction false} AfterTrivia(src: Text, edit: Edit, i: nat)
    requires Fits(src, edit) && i <= |src| && ParseValue(src, i).Ok?
    requires var v := ParseValue(src, i).value; Beside(edit, i, v.next) || Replaces(edit, Literals(v.node))
    requires !At(src, SkipTrivia(src, i).value, QUOTE)
    ensures Moved(edit, i) <= |Splice(src, edit)|
    ensures ParseValue(Splice(src, edit), Moved(edit, i))
         == Ok(Parsed(MapLiterals(ParseValue(src, i).value.node, l => MoveLiteral(edit, l)),
           Moved(edit, ParseValue(src, i).value.next)))
    decreases |src| - i, 1, 1
  {
    hide Splice, Moved, Stringify, SkipTrivia, ScanAtom, ParseString, ParseElements, ParseObject, ElementLiterals,
         MapElements, MoveLiteral;
    var v := ParseValue(src, i).value;
    var p := SkipTrivia(src, i).value;
    if At(src, p, LEFT_BRACE) {
      if Replaces(edit, Literals(v.node)) {
        ObjectLiteralsInOrder(src, p);
        ReplacesWithin(src, edit, Literals(v.node), p, v.next);
      }
      TriviaKept(src, edit, i);
      AtKept(src, edit, p, QUOTE);
      AtKept(src, edit, p, LEFT_BRACE);
      ObjectEdited(src, edit, p);
    } else if At(src, p, LEFT_BRACKET) {
      var first := SkipTrivia(src, p + 1).value;
      var es := ParseElements(src, first).value;
      if Replaces(edit, Literals(v.node)) {
        ElementLiteralsInOrder(src, first);
        ReplacesWithin(src, edit, Literals(v.node), first, es.next);
      }
      TriviaKept(src, edit, i);
      AtKept(src, edit, p, QUOTE);
      AtKept(src, edit, p, LEFT_BRACE);
      AtKept(src, edit, p, LEFT_BRACKET);
      MovedNext(src, edit, p);
      TriviaKept(src, edit, p + 1);
      ElementsEdited(src, edit, first);
      MovedNext(src, edit, es.next);
    } else {
      assert Literals(v.node) == [];
      TriviaKept(src, edit, i);
      AtKept(src, edit, p, QUOTE);
      AtKept(src, edit, p, LEFT_BRACE);
      AtKept(src, edit, p, LEFT_BRACKET);
      ScanAtomKept(src, edit, p);
      SliceKept(src, edit, p, v.next);
    }
  }

  lemma {:induction false} ObjectEdited(src: Text, edit: Edit, i: nat)
    requires Fits(src, edit) && i <= |src| && ParseObject(src, i).Ok?
    requires var v := ParseObject(src, i).value; Beside(edit, i, v.next) || Replaces(edit, Literals(v.node))
    ensures Moved(edit, i) <= |Splice(src, edit)|
    ensures ParseObject(Splice(src, edit), Moved(edit, i))
         == Ok(Parsed(MapLiterals(ParseObject(src, i).value.node, l => MoveLiteral(edit, l)),
           Moved(edit, ParseObject(src, i).value.next)))
    decreases |src| - i, 1, 0
  {
    hide Splice, Moved, Stringify, SkipTrivia, ParseMembers, MemberLiterals, MapMembers, MoveLiteral;
    var v := ParseObject(src, i).value;
    var p := SkipTrivia(src, i).value;
    var first := SkipTrivia(src, p + 1).value;
    var ms := ParseMembers(src, first).value;
    if Replaces(edit, Literals(v.node)) {
      MemberLiteralsInOrder(src, first);
      ReplacesWithin(src, edit, Literals(v.node), first, ms.next);
    }
    TriviaKept(src, edit, i);
    AtKept(src, edit, p, LEFT_BRACE);
    MovedNext(src, edit, p);
    TriviaKept(src, edit, p + 1);
    MembersEdited(src, edit, first);
    MovedNext(src, edit, ms.next);
  }

  /** The edit meets an element's value, or one of the later elements, or neither. */
  lemma ElementParts(src: Text, edit: Edit, i: nat)
    requires Fits(src, edit) && i <= |src| && ParseElements(src, i).Ok? && !At(src, i, RIGHT_BRACKET)
    requires var es := ParseElements(src, i).value; Beside(edit, i, es.next) || Replaces(edit, ElementLiterals(es.node))
    ensures ParseValue(src, i).Ok? && SkipTrivia(src, ParseValue(src, i).value.next).Ok?
    ensures var v := ParseValue(src, i).value;
            var p := SkipTrivia(src, v.next).value;
            && (Beside(edit, i, v.next) || Replaces(edit, Literals(v.node)))
            && Beside(edit, v.next, p)
            && Beside(edit, i, i)
            && (At(src, p, COMMA) ==>
                  && SkipTrivia(src, p + 1).Ok?
                  && var q := SkipTrivia(src, p + 1).value;
                     Beside(edit, v.next, q) && ParseElements(src, q).Ok? &&
                     var rest := ParseElements(src, q).value;
                     Beside(edit, q, rest.next) || Replaces(edit, ElementLiterals(rest.node)))
  {
    hide SkipTrivia, ParseValue, Literals;
    var es := ParseElements(src, i).value;
    var v := ParseValue(src, i).value;
    var p := SkipTrivia(src, v.next).value;
    if !Beside(edit, i, es.next) {
      ValueLiteralsInOrder(src, i);
      if At(src, p, COMMA) {
        var q := SkipTrivia(src, p + 1).value;
        var rest := ParseElements(src, q).value;
        ElementLiteralsInOrder(src, q);
        ReplacesConcat(edit, Literals(v.node), ElementLiterals(rest.node));
        if Replaces(edit, Literals(v.node)) {
          ReplacesWithin(src, edit, Literals(v.node), i, v.next);
        } else {
          ReplacesWithin(src, edit, ElementLiterals(rest.node), q, rest.next);
        }
      } else {
        assert ElementLiterals(es.node) == Literals(v.node);
        ReplacesWithin(src, edit, Literals(v.node), i, v.next);
      }
    }
  }

  lemma NoElementReplaced(edit: Edit)
    ensures !Replaces(edit, ElementLiterals(NoElement))
  {
  }

  lemma {:induction false} ElementsEdited(src: Text, edit: Edit, i: nat)
    requires Fits(src, edit) && i <= |src| && ParseElements(src, i).Ok?
    requires var es := ParseElements(src, i).value; Beside(edit, i, es.next) || Replaces(edit, ElementLiterals(es.node))
    ensures Moved(edit, i) <= |Splice(src, edit)|
    ensures ParseElements(Splice(src, edit), Moved(edit, i))
         == Ok(Parsed(MapElements(ParseElements(src, i).value.node, l => MoveLiteral(edit, l)),
           Moved(edit, ParseElements(src, i).value.next)))
    decreases |src| - i, 3
  {
    hide Splice, Moved, SkipTrivia, ParseValue, Literals, MapLiterals, MoveLiteral, ElementLiterals, Replaces;
    if At(src, i, RIGHT_BRACKET) {
      NoElementReplaced(edit);
      AtKept(src, edit, i, RIGHT_BRACKET);
    } else {
      ElementParts(src, edit, i);
      var v := ParseValue(src, i).value;
      var p := SkipTrivia(src, v.next).value;
      AtKept(src, edit, i, RIGHT_BRACKET);
      ValueEdited(src, edit, i);
      TriviaKept(src, edit, v.next);
      AtKept(src, edit, p, COMMA);
      if At(src, p, COMMA) {
        var q := SkipTrivia(src, p + 1).value;
        MovedNext(src, edit, p);
        TriviaKept(src, edit, p + 1);
        ElementsEdited(src, edit, q);
      } else {
        AtKept(src, edit, p, RIGHT_BRACKET);
      }
    }
  }

  /** A key away from the edit is read as before. */
  lemma KeyKept(src: Text, edit: Edit, i: nat)
    requires Fits(src, edit) && i <= |src| && ParseKey(src, i).Ok? && Beside(edit, i, ParseKey(src, i).value.next)
    ensures Moved(edit, i) <= |Splice(src, edit)|
    ensures ParseKey(Splice(src, edit), Moved(edit, i))
         == Ok(Parsed(ParseKey(src, i).value.node, Moved(edit, ParseKey(src, i).value.next)))
  {
    hide Splice, Moved, SkipTrivia, ParseString;
    var key := ParseString(src, i).value;
    var c := SkipTrivia(src, key.next).value;
    StringKept(src, edit, i);
    TriviaKept(src, edit, key.next);
    AtKept(src, edit, c, COLON);
    MovedNext(src, edit, c);
  }

  /** The edit meets no part of a member but its value, or one of the later members. */
  lemma MemberParts(src: Text, edit: Edit, i: nat)
    requires Fits(src, edit) && i <= |src| && ParseMembers(src, i).Ok? && !At(src, i, RIGHT_BRACE)
    requires var ms := ParseMembers(src, i).value; Beside(edit, i, ms.next) || Replaces(edit, MemberLiterals(ms.node))
    ensures ParseKey(src, i).Ok? && ParseValue(src, ParseKey(src, i).value.next).Ok?
    ensures SkipTrivia(src, ParseValue(src, ParseKey(src, i).value.next).value.next).Ok?
    ensures var key := ParseKey(src, i).value;
            var v := ParseValue(src, key.next).value;
            var p := SkipTrivia(src, v.next).value;
            && Beside(edit, i, key.next)
            && (Beside(edit, key.next, v.next) || Replaces(edit, Literals(v.node)))
            && Beside(edit, v.next, p)
            && (At(src, p, COMMA) ==>
                  && SkipTrivia(src, p + 1).Ok?
                  && var q := SkipTrivia(src, p + 1).value;
                     Beside(edit, v.next, q) && ParseMembers(src, q).Ok? &&
                     var rest := ParseMembers(src, q).value;
                     Beside(edit, q, rest.next) || Replaces(edit, MemberLiterals(rest.node)))
  {
    hide SkipTrivia, ParseKey, ParseValue, Literals;
    var ms := ParseMembers(src, i).value;
    var key := ParseKey(src, i).value;
    var v := ParseValue(src, key.next).value;
    var p := SkipTrivia(src, v.next).value;
    if !Beside(edit, i, ms.next) {
      ValueLiteralsInOrder(src, key.next);
      if At(src, p, COMMA) {
        var q := SkipTrivia(src, p + 1).value;
        var rest := ParseMembers(src, q).value;
        MemberLiteralsInOrder(src, q);
        ReplacesConcat(edit, Literals(v.node), MemberLiterals(rest.node));
        if Replaces(edit, Literals(v.node)) {
          ReplacesWithin(src, edit, Literals(v.node), key.next, v.next);
        } else {
          ReplacesWithin(src, edit, MemberLiterals(rest.node), q, rest.next);
        }
      } else {
        assert MemberLiterals(ms.node) == Literals(v.node);
        ReplacesWithin(src, edit, Literals(v.node), key.next, v.next);
      }
    }
  }

  lemma NoMemberReplaced(edit: Edit)
    ensures !Replaces(edit, MemberLiterals(NoMember))
  {
  }

  lemma {:induction false} MembersEdited(src: Text, edit: Edit, i: nat)
    requires Fits(src, edit) && i <= |src| && ParseMembers(src, i).Ok?
    requires var ms := ParseMembers(src, i).value; Beside(edit, i, ms.next) || Replaces(edit, MemberLiterals(ms.node))
    ensures Moved(edit, i) <= |Splice(src, edit)|
    ensures ParseMembers(Splice(src, edit), Moved(edit, i))
         == Ok(Parsed(MapMembers(ParseMembers(src, i).value.node, l => MoveLiteral(edit, l)),
           Moved(edit, ParseMembers(src, i).value.next)))
    decreases |src| - i, 3
  {
    hide Splice, Moved, SkipTrivia, ParseKey, ParseValue, Literals, MapLiterals, MoveLiteral, MemberLiterals, Replaces;
    if At(src, i, RIGHT_BRACE) {
      NoMemberReplaced(edit);
      AtKept(src, edit, i, RIGHT_BRACE);
    } else {
      MemberParts(src, edit, i);
      var key := ParseKey(src, i).value;
      var v := ParseValue(src, key.next).value;
      var p := SkipTrivia(src, v.next).value;
      AtKept(src, edit, i, RIGHT_BRACE);
      KeyKept(src, edit, i);
      ValueEdited(src, edit, key.next);
      TriviaKept(src, edit, v.next);
      AtKept(src, edit, p, COMMA);
      if At(src, p, COMMA) {
        var q := SkipTrivia(src, p + 1).value;
        MovedNext(src, edit, p);
        TriviaKept(src, edit, p + 1);
        MembersEdited(src, edit, q);
      } else {
        AtKept(src, edit, p, RIGHT_BRACE);
      }
    }
  }

  /** Replacing one recorded literal of a file changes that literal's value and nothing else. */
  lemma FileEdited(src: Text, edit: Edit)
    requires ParseFile(src).Ok? && Replaces(edit, Literals(ParseFile(src).value))
    ensures Fits(src, edit)
    ensures ParseFile(Splice(src, edit)) == Ok(MapLiterals(ParseFile(src).value, l => MoveLiteral(edit, l)))
  {
    hide Splice, Moved, SkipTrivia, ParseValue, Literals, MapLiterals, MoveLiteral;
    var root := ParseValue(src, 0).value;
    ValueLiteralsInOrder(src, 0);
    ReplacesWithin(src, edit, Literals(root.node), 0, root.next);
    MovedBefore(edit, 0);
    ValueEdited(src, edit, 0);
    TriviaKept(src, edit, root.next);
    UnitKept(src, edit, |src|);
  }
}

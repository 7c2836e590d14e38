/**
  How a lockfile may be written, said without the parser: values with any whitespace and comments
  between their tokens and optional trailing commas. Every such layout parses to its tree.
 */
module LockfileLayouts {
  import opened Common
  import opened JsonText
  import opened LockfileSyntax

  // ---------- whitespace and comments ----------

  datatype Trivium = Blank(unit: CodeUnit) | LineComment(text: Text) | BlockComment(text: Text)

  type Gap = seq<Trivium>

  /** Tab, line feed, vertical tab, form feed, carriage return, and the space separators and line
      ends of ECMAScript (tables 33 and 34 of ECMA-262). */
  const BLANKS: seq<CodeUnit> := [
    0x09, 0x0A, 0x0B, 0x0C, 0x0D, 0x20, 0xA0, 0x1680, 0x2000, 0x2001, 0x2002, 0x2003, 0x2004, 0x2005, 0x2006,
    0x2007, 0x2008, 0x2009, 0x200A, 0x2028, 0x2029, 0x202F, 0x205F, 0x3000, 0xFEFF]

  predicate ProperTrivium(t: Trivium) {
    match t
    case Blank(u) => u in BLANKS
    case LineComment(text) => NEWLINE !in text
    case BlockComment(text) => forall k :: 0 <= k < |text| - 1 ==> !(text[k] == STAR && text[k + 1] == SLASH)
  }

  predicate ProperGap(gap: Gap) {
    forall k :: 0 <= k < |gap| ==> ProperTrivium(gap[k])
  }

  function ShowTrivium(t: Trivium): Text {
    match t
    case Blank(u) => [u]
    case LineComment(text) => [SLASH, SLASH] + text + [NEWLINE]
    case BlockComment(text) => [SLASH, STAR] + text + [STAR, SLASH]
  }

  function ShowGap(gap: Gap): Text {
    if gap == [] then [] else ShowTrivium(gap[0]) + ShowGap(gap[1..])
  }

  lemma BlanksAreSpace(u: CodeUnit)
    ensures u in BLANKS <==> IsSpace(u)
  {
  }

  lemma HoldsAt(src: Text, i: nat, part: Text, k: nat)
    requires Holds(src, i, part) && k < |part|
    ensures i + k < |src| && src[i + k] == part[k]
  {
    assert src[i..i + |part|][k] == part[k];
  }

  lemma HoldsRest(src: Text, i: nat, part: Text)
    requires Holds(src, i, part) && part != []
    ensures Holds(src, i + 1, part[1..])
  {
    assert src[i + 1..i + |part|] == src[i..i + |part|][1..];
  }

  lemma {:induction false} NewlineFound(src: Text, i: nat, text: Text)
    requires Holds(src, i, text + [NEWLINE]) && NEWLINE !in text
    ensures FindNewline(src, i) == Some(i + |text|)
    decreases |text|
  {
    HoldsAt(src, i, text + [NEWLINE], 0);
    if text != [] {
      HoldsRest(src, i, text + [NEWLINE]);
      assert (text + [NEWLINE])[1..] == text[1..] + [NEWLINE];
      NewlineFound(src, i + 1, text[1..]);
    }
  }

  lemma {:induction false} CommentEndFound(src: Text, i: nat, text: Text)
    requires Holds(src, i, text + [STAR, SLASH]) && ProperTrivium(BlockComment(text))
    ensures FindCommentEnd(src, i) == Some(i + |text|)
    decreases |text|
  {
    var shown := text + [STAR, SLASH];
    HoldsAt(src, i, shown, 0);
    HoldsAt(src, i, shown, 1);
    if text != [] {
      HoldsRest(src, i, shown);
      assert shown[1..] == text[1..] + [STAR, SLASH];
      CommentEndFound(src, i + 1, text[1..]);
    }
  }

  lemma TriviumSkipped(src: Text, i: nat, t: Trivium)
    requires Holds(src, i, ShowTrivium(t)) && ProperTrivium(t)
    ensures i < i + |ShowTrivium(t)| <= |src| && SkipTrivia(src, i) == SkipTrivia(src, i + |ShowTrivium(t)|)
  {
    hide IsSpace, FindNewline, FindCommentEnd;
    HoldsAt(src, i, ShowTrivium(t), 0);
    if !t.Blank? { HoldsAt(src, i, ShowTrivium(t), 1); }
    BlanksAreSpace(src[i]);
    SlashIsNoBlank();
    match t
    case Blank(u) =>
    case LineComment(text) =>
      assert [SLASH, SLASH] + text + [NEWLINE] == [SLASH, SLASH] + (text + [NEWLINE]);
      HoldsParts(src, i, [SLASH, SLASH], text + [NEWLINE]);
      NewlineFound(src, i + 2, text);
    case BlockComment(text) =>
      assert [SLASH, STAR] + text + [STAR, SLASH] == [SLASH, STAR] + (text + [STAR, SLASH]);
      HoldsParts(src, i, [SLASH, STAR], text + [STAR, SLASH]);
      CommentEndFound(src, i + 2, text);
  }

  lemma SlashIsNoBlank()
    ensures SLASH !in BLANKS
  {
  }

  lemma {:induction false} GapSkipped(src: Text, i: nat, gap: Gap)
    requires Holds(src, i, ShowGap(gap)) && ProperGap(gap)
    ensures i + |ShowGap(gap)| <= |src| && SkipTrivia(src, i) == SkipTrivia(src, i + |ShowGap(gap)|)
    decreases |gap|
  {
    hide SkipTrivia, ShowTrivium, ProperTrivium;
    if gap != [] {
      HoldsParts(src, i, ShowTrivium(gap[0]), ShowGap(gap[1..]));
      TriviumSkipped(src, i, gap[0]);
      GapSkipped(src, i + |ShowTrivium(gap[0])|, gap[1..]);
    }
  }

  /** Trivia ends at the end of the text, or where neither whitespace nor a comment starts. */
  predicate TokenAt(src: Text, p: nat) {
    || p == |src|
    || (p < |src| && src[p] !in BLANKS && !(src[p] == SLASH && (At(src, p + 1, SLASH) || At(src, p + 1, STAR))))
  }

  lemma TokenStops(src: Text, p: nat)
    requires TokenAt(src, p)
    ensures SkipTrivia(src, p) == Ok(p)
  {
    if p < |src| { BlanksAreSpace(src[p]); }
  }

  lemma GapEnds(src: Text, i: nat, gap: Gap)
    requires Holds(src, i, ShowGap(gap)) && ProperGap(gap) && TokenAt(src, i + |ShowGap(gap)|)
    ensures i + |ShowGap(gap)| <= |src| && SkipTrivia(src, i) == Ok(i + |ShowGap(gap)|)
  {
    hide Holds, SkipTrivia, TokenAt, ShowGap, ProperGap;
    GapSkipped(src, i, gap);
    TokenStops(src, i + |ShowGap(gap)|);
  }

  // ---------- string literals ----------

  datatype HexDigitShown = HexDigitShown(value: nat, capital: bool)

  datatype Letter =
    | Plain(unit: CodeUnit)
    | Short(letter: CodeUnit)
    | Long(a: HexDigitShown, b: HexDigitShown, c: HexDigitShown, d: HexDigitShown)

  /** The one-letter escapes of section 7 of RFC 8259. */
  const SHORT_ESCAPES: map<CodeUnit, CodeUnit> := map[
    0x22 := 0x22, 0x5C := 0x5C, 0x2F := 0x2F, 0x62 := 0x08, 0x66 := 0x0C, 0x6E := 0x0A, 0x72 := 0x0D, 0x74 := 0x09]

  predicate ProperLetter(l: Letter) {
    match l
    case Plain(u) => u >= 0x20 && u != 0x22 && u != 0x5C
    case Short(letter) => letter in SHORT_ESCAPES
    case Long(a, b, c, d) => a.value < 16 && b.value < 16 && c.value < 16 && d.value < 16
  }

  function ShowDigit(d: HexDigitShown): CodeUnit
    requires d.value < 16
  {
    if d.value < 10 then 0x30 + d.value else if d.capital then 0x41 + d.value - 10 else 0x61 + d.value - 10
  }

  function ShowLetter(l: Letter): Text
    requires ProperLetter(l)
  {
    match l
    case Plain(u) => [u]
    case Short(letter) => [0x5C, letter]
    case Long(a, b, c, d) => [0x5C, 0x75, ShowDigit(a), ShowDigit(b), ShowDigit(c), ShowDigit(d)]
  }

  function LetterValue(l: Letter): CodeUnit
    requires ProperLetter(l)
  {
    match l
    case Plain(u) => u
    case Short(letter) => SHORT_ESCAPES[letter]
    case Long(a, b, c, d) => a.value * 0x1000 + b.value * 0x100 + c.value * 0x10 + d.value
  }

  predicate ProperLetters(ls: seq<Letter>) {
    forall k :: 0 <= k < |ls| ==> ProperLetter(ls[k])
  }

  function ShowLetters(ls: seq<Letter>): Text
    requires ProperLetters(ls)
  {
    if ls == [] then [] else ShowLetter(ls[0]) + ShowLetters(ls[1..])
  }

  function Value(ls: seq<Letter>): Text
    requires ProperLetters(ls)
  {
    seq(|ls|, k requires 0 <= k < |ls| => LetterValue(ls[k]))
  }

  function ShowString(ls: seq<Letter>): Text
    requires ProperLetters(ls)
  {
    [QUOTE] + ShowLetters(ls) + [QUOTE]
  }

  /** How one unit is printed: by the short escape that stands for it, or else a control or lone
      surrogate by four small hexadecimal digits, and any other unit as it is. */
  lemma PrintedAs(u: CodeUnit, letter: CodeUnit)
    ensures letter in SHORT_ESCAPES && SHORT_ESCAPES[letter] == u && u != SLASH ==> Escaped(u) == [0x5C, letter]
    ensures u >= 0x20 && u != 0x22 && u != 0x5C && !(0xD800 <= u < 0xE000) ==> Escaped(u) == [u]
    ensures (u < 0x20 && u !in {0x08, 0x09, 0x0A, 0x0C, 0x0D}) || 0xD800 <= u < 0xE000 ==>
      Escaped(u) == ShowLetter(Long(HexDigitShown(u / 0x1000, false), HexDigitShown(u / 0x100 % 16, false),
                                    HexDigitShown(u / 0x10 % 16, false), HexDigitShown(u % 16, false)))
  {
  }

  /** Text without quotes, backslashes, controls and surrogates is printed between quotes as it is. */
  lemma {:induction false} PlainTextPrinted(value: Text)
    requires forall k :: 0 <= k < |value| ==>
      value[k] >= 0x20 && value[k] != 0x22 && value[k] != 0x5C && !(0xD800 <= value[k] < 0xE000)
    ensures Quoted(value) == value
    decreases |value|
  {
    if value != [] {
      PrintedAs(value[0], 0);
      PlainTextPrinted(value[1..]);
      assert value == [value[0]] + value[1..];
    }
  }

  lemma DigitReads(d: HexDigitShown)
    requires d.value < 16
    ensures HexValue(ShowDigit(d)) == Some(d.value)
  {
  }

  lemma LetterReads(l: Letter, rest: Text)
    requires ProperLetter(l)
    ensures Unquote(ShowLetter(l) + rest) == Prepend(LetterValue(l), Unquote(rest))
  {
    hide HexValue, ShowDigit;
    var body := ShowLetter(l) + rest;
    match l
    case Plain(u) => assert body[1..] == rest;
    case Short(letter) => assert body[2..] == rest;
    case Long(a, b, c, d) =>
      assert body[6..] == rest;
      assert body[2..6] == [ShowDigit(a), ShowDigit(b), ShowDigit(c), ShowDigit(d)];
      DigitReads(a);
      DigitReads(b);
      DigitReads(c);
      DigitReads(d);
  }

  lemma {:induction false} LettersRead(ls: seq<Letter>)
    requires ProperLetters(ls)
    ensures Unquote(ShowLetters(ls)) == Some(Value(ls))
    decreases |ls|
  {
    hide ShowLetter, LetterValue, ProperLetter;
    if ls == [] {
      assert Value(ls) == [];
    } else {
      LettersRead(ls[1..]);
      LetterReads(ls[0], ShowLetters(ls[1..]));
      assert ShowLetters(ls) == ShowLetter(ls[0]) + ShowLetters(ls[1..]);
      assert Value(ls) == [LetterValue(ls[0])] + Value(ls[1..]);
    }
  }

  lemma LetterScanned(src: Text, i: nat, l: Letter)
    requires ProperLetter(l) && Holds(src, i, ShowLetter(l))
    ensures ScanString(src, i) == ScanString(src, i + |ShowLetter(l)|)
  {
    var shown := ShowLetter(l);
    HoldsAt(src, i, shown, 0);
    if l.Long? {
      HoldsAt(src, i, shown, 2);
      HoldsAt(src, i, shown, 3);
      HoldsAt(src, i, shown, 4);
      HoldsAt(src, i, shown, 5);
      assert ScanString(src, i) == ScanString(src, i + 2) == ScanString(src, i + 3);
      assert ScanString(src, i + 3) == ScanString(src, i + 4) == ScanString(src, i + 5) == ScanString(src, i + 6);
    }
  }

  lemma {:induction false} LettersScanned(src: Text, i: nat, ls: seq<Letter>)
    requires ProperLetters(ls) && Holds(src, i, ShowLetters(ls) + [QUOTE])
    ensures ScanString(src, i) == Ok(i + |ShowLetters(ls)| + 1)
    decreases |ls|
  {
    hide ShowLetter, ProperLetter;
    if ls == [] {
      HoldsAt(src, i, [QUOTE], 0);
    } else {
      var first, rest := ShowLetter(ls[0]), ShowLetters(ls[1..]) + [QUOTE];
      assert ShowLetters(ls) + [QUOTE] == first + rest;
      HoldsParts(src, i, first, rest);
      LetterScanned(src, i, ls[0]);
      LettersScanned(src, i + |first|, ls[1..]);
    }
  }

  lemma StringReads(src: Text, p: nat, ls: seq<Letter>)
    requires ProperLetters(ls) && Holds(src, p, ShowString(ls))
    ensures var end := p + |ShowString(ls)|;
            p < end <= |src| && src[p] == QUOTE && TokenAt(src, p)
            && ParseString(src, p) == Ok(Parsed(Literal(p, end, Value(ls)), end))
  {
    hide ShowLetters, SkipTrivia, ScanString, Unquote, Value;
    var shown := ShowString(ls);
    assert shown == [QUOTE] + (ShowLetters(ls) + [QUOTE]);
    HoldsParts(src, p, [QUOTE], ShowLetters(ls) + [QUOTE]);
    HoldsAt(src, p, [QUOTE], 0);
    QuoteIsNoBlank();
    TokenStops(src, p);
    LettersScanned(src, p + 1, ls);
    LettersRead(ls);
    assert shown[1..|shown| - 1] == ShowLetters(ls);
    assert src[p..p + |shown|] == shown;
  }

  lemma QuoteIsNoBlank()
    ensures QUOTE !in BLANKS
  {
  }

  // ---------- values ----------

  datatype Layout =
    | LObject(members: LMembers)
    | LArray(elements: LElements)
    | LString(letters: seq<Letter>)
    | LAtom(text: Text)

  /** What stands between the braces: after the last member, a comma and then `LNoMember` or none. */
  datatype LMembers =
    | LNoMember(gap: Gap)
    | LLastMember(gap: Gap, key: seq<Letter>, colon: Gap, before: Gap, value: Layout, after: Gap)
    | LMember(gap: Gap, key: seq<Letter>, colon: Gap, before: Gap, value: Layout, after: Gap, rest: LMembers)

  datatype LElements =
    | LNoElement(gap: Gap)
    | LLastElement(gap: Gap, value: Layout, after: Gap)
    | LElement(gap: Gap, value: Layout, after: Gap, rest: LElements)

  /** An atom runs up to whitespace or a delimiter, so that whitespace comes before a comment behind it. */
  predicate Follows(value: Layout, after: Gap) {
    value.LAtom? && after != [] ==> after[0].Blank?
  }

  predicate ProperAtom(text: Text) {
    && text != [] && text[0] != 0x22 && text[0] != 0x7B && text[0] != 0x5B
    && !(text[0] == SLASH && |text| > 1 && (text[1] == SLASH || text[1] == STAR))
    && forall k :: 0 <= k < |text| ==> text[k] !in BLANKS && text[k] != 0x2C && text[k] != 0x7D && text[k] != 0x5D
  }

  predicate Proper(v: Layout) {
    match v
    case LObject(members) => ProperMembers(members)
    case LArray(elements) => ProperElements(elements)
    case LString(letters) => ProperLetters(letters)
    case LAtom(text) => ProperAtom(text)
  }

  predicate ProperMembers(ms: LMembers) {
    match ms
    case LNoMember(gap) => ProperGap(gap)
    case LLastMember(gap, key, colon, before, value, after) =>
      ProperMember(gap, key, colon, before, after) && Proper(value) && Follows(value, after)
    case LMember(gap, key, colon, before, value, after, rest) =>
      ProperMember(gap, key, colon, before, after) && Proper(value) && Follows(value, after) && ProperMembers(rest)
  }

  predicate ProperMember(gap: Gap, key: seq<Letter>, colon: Gap, before: Gap, after: Gap) {
    ProperGap(gap) && ProperLetters(key) && ProperGap(colon) && ProperGap(before) && ProperGap(after)
  }

  predicate ProperElements(es: LElements) {
    match es
    case LNoElement(gap) => ProperGap(gap)
    case LLastElement(gap, value, after) => ProperGap(gap) && Proper(value) && ProperGap(after) && Follows(value, after)
    case LElement(gap, value, after, rest) =>
      ProperGap(gap) && Proper(value) && ProperGap(after) && Follows(value, after) && ProperElements(rest)
  }

  function Show(v: Layout): (shown: Text)
    requires Proper(v)
    ensures |shown| > 0
  {
    match v
    case LObject(members) => [LEFT_BRACE] + (ShowMembers(members) + [RIGHT_BRACE])
    case LArray(elements) => [LEFT_BRACKET] + (ShowElements(elements) + [RIGHT_BRACKET])
    case LString(letters) => ShowString(letters)
    case LAtom(text) => text
  }

  function ShowKey(key: seq<Letter>, colon: Gap): Text
    requires ProperLetters(key)
  {
    ShowString(key) + (ShowGap(colon) + [COLON])
  }

  function ShowMembers(ms: LMembers): Text
    requires ProperMembers(ms)
  {
    match ms
    case LNoMember(gap) => ShowGap(gap)
    case LLastMember(gap, key, colon, before, value, after) =>
      ShowGap(gap) + (ShowKey(key, colon) + (ShowGap(before) + (Show(value) + ShowGap(after))))
    case LMember(gap, key, colon, before, value, after, rest) =>
      ShowGap(gap) + (ShowKey(key, colon) +
      (ShowGap(before) + (Show(value) + (ShowGap(after) + ([COMMA] + ShowMembers(rest))))))
  }

  function ShowElements(es: LElements): Text
    requires ProperElements(es)
  {
    match es
    case LNoElement(gap) => ShowGap(gap)
    case LLastElement(gap, value, after) => ShowGap(gap) + (Show(value) + ShowGap(after))
    case LElement(gap, value, after, rest) =>
      ShowGap(gap) + (Show(value) + (ShowGap(after) + ([COMMA] + ShowElements(rest))))
  }

  /** The tree of a layout shown from `at` on. */
  function Tree(v: Layout, at: nat): Syntax
    requires Proper(v)
  {
    match v
    case LObject(members) => Obj(MembersTree(members, at + 1))
    case LArray(elements) => Arr(ElementsTree(elements, at + 1))
    case LString(letters) => Str(Literal(at, at + |ShowString(letters)|, Value(letters)))
    case LAtom(text) => Atom(text)
  }

  function MembersTree(ms: LMembers, at: nat): Members
    requires ProperMembers(ms)
  {
    match ms
    case LNoMember(_) => NoMember
    case LLastMember(gap, key, colon, before, value, _) =>
      Member(Value(key), Tree(value, at + |ShowGap(gap)| + |ShowKey(key, colon)| + |ShowGap(before)|), NoMember)
    case LMember(gap, key, colon, before, value, after, rest) =>
      var start := at + |ShowGap(gap)| + |ShowKey(key, colon)| + |ShowGap(before)|;
      Member(Value(key), Tree(value, start), MembersTree(rest, start + |Show(value)| + |ShowGap(after)| + 1))
  }

  function ElementsTree(es: LElements, at: nat): Elements
    requires ProperElements(es)
  {
    match es
    case LNoElement(_) => NoElement
    case LLastElement(gap, value, _) => Element(Tree(value, at + |ShowGap(gap)|), NoElement)
    case LElement(gap, value, after, rest) =>
      var start := at + |ShowGap(gap)|;
      Element(Tree(value, start), ElementsTree(rest, start + |Show(value)| + |ShowGap(after)| + 1))
  }

  // ---------- every layout parses to its tree ----------

  /** What ends a value: the end of the text, whitespace or a delimiter, unless it ends itself. */
  predicate Ended(src: Text, v: Layout, end: nat) {
    v.LAtom? ==>
      end == |src| || (end < |src| && (src[end] in BLANKS || src[end] in [COMMA, RIGHT_BRACE, RIGHT_BRACKET]))
  }

  lemma {:induction false} AtomScanned(src: Text, i: nat, text: Text)
    requires Holds(src, i, text) && Ended(src, LAtom(text), i + |text|)
    requires forall k :: 0 <= k < |text| ==> text[k] !in BLANKS && text[k] != 0x2C && text[k] != 0x7D && text[k] != 0x5D
    ensures ScanAtom(src, i) == i + |text|
    decreases |text|
  {
    hide IsSpace;
    if i < |src| { BlanksAreSpace(src[i]); }
    if text != [] {
      HoldsAt(src, i, text, 0);
      HoldsRest(src, i, text);
      AtomScanned(src, i + 1, text[1..]);
    }
  }

  lemma AtomReads(src: Text, p: nat, text: Text)
    requires Holds(src, p, text) && ProperAtom(text) && Ended(src, LAtom(text), p + |text|)
    ensures TokenAt(src, p) && p < p + |text| <= |src|
    ensures ParseValue(src, p) == Ok(Parsed(Atom(text), p + |text|))
  {
    hide ScanAtom, ParseObject, ParseElements, ParseString;
    HoldsAt(src, p, text, 0);
    if |text| > 1 { HoldsAt(src, p, text, 1); }
    SlashIsNoBlank();
    StarEndsNothing();
    assert TokenAt(src, p);
    TokenStops(src, p);
    AtomScanned(src, p, text);
    assert src[p..p + |text|] == text;
  }

  lemma StarEndsNothing()
    ensures STAR !in BLANKS && STAR !in [COMMA, RIGHT_BRACE, RIGHT_BRACKET]
    ensures SLASH !in [COMMA, RIGHT_BRACE, RIGHT_BRACKET]
  {
  }

  lemma DelimitersAreTokens(src: Text, p: nat)
    requires p < |src| && src[p] in [LEFT_BRACE, RIGHT_BRACE, LEFT_BRACKET, RIGHT_BRACKET, COMMA, COLON, QUOTE]
    ensures TokenAt(src, p) && src[p] !in BLANKS
  {
  }

  /** What follows a value in a layout ends it. */
  lemma AfterEnds(src: Text, v: Layout, end: nat, after: Gap, next: CodeUnit)
    requires Follows(v, after) && ProperGap(after) && Holds(src, end, ShowGap(after) + [next])
    requires next in [COMMA, RIGHT_BRACE, RIGHT_BRACKET]
    ensures Ended(src, v, end)
  {
    HoldsAt(src, end, ShowGap(after) + [next], 0);
    if after != [] && after[0].Blank? { assert ShowGap(after)[0] == after[0].unit; }
  }

  /** Reading a value may start at the trivia before it. */
  lemma ValueSkips(src: Text, i: nat, p: nat)
    requires i <= p <= |src| && SkipTrivia(src, i) == Ok(p) && SkipTrivia(src, p) == Ok(p)
    ensures ParseValue(src, i) == ParseValue(src, p)
  {
    hide SkipTrivia, ParseString, ParseObject, ParseElements, ScanAtom;
  }

  lemma StringValueReads(src: Text, p: nat, ls: seq<Letter>)
    requires ProperLetters(ls) && Holds(src, p, ShowString(ls))
    ensures var end := p + |ShowString(ls)|;
            TokenAt(src, p) && p < end <= |src|
            && ParseValue(src, p) == Ok(Parsed(Str(Literal(p, end, Value(ls))), end))
  {
    hide Holds, SkipTrivia, ParseString, ParseObject, ParseElements, ScanAtom;
    hide ShowString, TokenAt, Value, ProperLetters;
    StringReads(src, p, ls);
    TokenStops(src, p);
  }

  lemma {:induction false} ValueReads(src: Text, p: nat, v: Layout)
    requires Proper(v) && Holds(src, p, Show(v)) && Ended(src, v, p + |Show(v)|)
    ensures TokenAt(src, p) && p < p + |Show(v)| <= |src|
    ensures ParseValue(src, p) == Ok(Parsed(Tree(v, p), p + |Show(v)|))
    decreases v, 0
  {
    hide Holds, SkipTrivia, ParseValue, ShowString, TokenAt, Value, ProperAtom, ProperLetters;
    match v
    case LAtom(text) => AtomReads(src, p, text);
    case LString(letters) => StringValueReads(src, p, letters);
    case LObject(members) => ObjectReads(src, p, members);
    case LArray(elements) => ArrayReads(src, p, elements);
  }

  lemma {:induction false} ObjectReads(src: Text, p: nat, ms: LMembers)
    requires ProperMembers(ms) && Holds(src, p, Show(LObject(ms)))
    ensures TokenAt(src, p) && p < p + |Show(LObject(ms))| <= |src|
    ensures ParseValue(src, p) == Ok(Parsed(Tree(LObject(ms), p), p + |Show(LObject(ms))|))
    decreases ms, 2
  {
    hide SkipTrivia, ScanAtom, ShowMembers, MembersTree, ParseMembers, ParseElements, ParseString, TokenAt;
    HoldsParts(src, p, [LEFT_BRACE], ShowMembers(ms) + [RIGHT_BRACE]);
    HoldsAt(src, p, [LEFT_BRACE], 0);
    DelimitersAreTokens(src, p);
    TokenStops(src, p);
    MembersRead(src, p + 1, ms);
  }

  lemma {:induction false} ArrayReads(src: Text, p: nat, es: LElements)
    requires ProperElements(es) && Holds(src, p, Show(LArray(es)))
    ensures TokenAt(src, p) && p < p + |Show(LArray(es))| <= |src|
    ensures ParseValue(src, p) == Ok(Parsed(Tree(LArray(es), p), p + |Show(LArray(es))|))
    decreases es, 2
  {
    hide SkipTrivia, ScanAtom, ShowElements, ElementsTree, ParseObject, ParseElements, ParseString, TokenAt;
    HoldsParts(src, p, [LEFT_BRACKET], ShowElements(es) + [RIGHT_BRACKET]);
    HoldsAt(src, p, [LEFT_BRACKET], 0);
    DelimitersAreTokens(src, p);
    TokenStops(src, p);
    ElementsRead(src, p + 1, es);
  }

  /** A value after trivia, with trivia and a delimiter behind it. */
  lemma {:induction false} ItemReads(src: Text, i: nat, gap: Gap, v: Layout, after: Gap, next: CodeUnit, more: Text)
    requires ProperGap(gap) && Proper(v) && ProperGap(after) && Follows(v, after)
    requires next in [COMMA, RIGHT_BRACE, RIGHT_BRACKET]
    requires Holds(src, i, ShowGap(gap) + (Show(v) + (ShowGap(after) + ([next] + more))))
    ensures var p := i + |ShowGap(gap)|;
            var q := p + |Show(v)| + |ShowGap(after)|;
            && p < q < |src| && TokenAt(src, p) && SkipTrivia(src, i) == Ok(p)
            && ParseValue(src, i) == ParseValue(src, p) == Ok(Parsed(Tree(v, p), p + |Show(v)|))
            && SkipTrivia(src, p + |Show(v)|) == Ok(q) && src[q] == next && Holds(src, q + 1, more)
    decreases v, 1
  {
    hide Holds, SkipTrivia, ParseValue, Show, Tree, TokenAt, ShowGap, Ended, Proper;
    var p := i + |ShowGap(gap)|;
    var end := p + |Show(v)|;
    HoldsParts(src, i, ShowGap(gap), Show(v) + (ShowGap(after) + ([next] + more)));
    HoldsParts(src, p, Show(v), ShowGap(after) + ([next] + more));
    HoldsParts(src, end, ShowGap(after), [next] + more);
    HoldsParts(src, end + |ShowGap(after)|, [next], more);
    HoldsAt(src, end + |ShowGap(after)|, [next], 0);
    assert ShowGap(after) + ([next] + more) == (ShowGap(after) + [next]) + more;
    HoldsParts(src, end, ShowGap(after) + [next], more);
    AfterEnds(src, v, end, after, next);
    ValueReads(src, p, v);
    GapEnds(src, i, gap);
    TokenStops(src, p);
    ValueSkips(src, i, p);
    DelimitersAreTokens(src, end + |ShowGap(after)|);
    GapEnds(src, end, after);
  }

  lemma {:induction false} ElementsRead(src: Text, i: nat, es: LElements)
    requires ProperElements(es) && Holds(src, i, ShowElements(es) + [RIGHT_BRACKET])
    ensures var end := i + |ShowElements(es)|;
            && i <= end < |src| && SkipTrivia(src, i).Ok?
            && ParseElements(src, SkipTrivia(src, i).value) == Ok(Parsed(ElementsTree(es, i), end))
    decreases es, 1
  {
    hide Holds, SkipTrivia, ParseValue, ParseElements, Show, Tree, TokenAt, ShowGap, Proper, ProperGap, Follows;
    match es
    case LNoElement(gap) =>
      HoldsParts(src, i, ShowGap(gap), [RIGHT_BRACKET]);
      var p := i + |ShowGap(gap)|;
      HoldsAt(src, p, [RIGHT_BRACKET], 0);
      DelimitersAreTokens(src, p);
      GapEnds(src, i, gap);
      Emptied(src, p);
    case LLastElement(gap, value, after) =>
      assert ShowElements(es) + [RIGHT_BRACKET] ==
        ShowGap(gap) + (Show(value) + (ShowGap(after) + ([RIGHT_BRACKET] + [])));
      ItemReads(src, i, gap, value, after, RIGHT_BRACKET, []);
      var p := i + |ShowGap(gap)|;
      NoBracketFirst(src, p, value);
      ElementsStep(src, p, Tree(value, p), p + |Show(value)|, p + |Show(value)| + |ShowGap(after)|);
    case LElement(gap, value, after, rest) =>
      MoreElements(es);
      ItemReads(src, i, gap, value, after, COMMA, ShowElements(rest) + [RIGHT_BRACKET]);
      var p := i + |ShowGap(gap)|;
      NoBracketFirst(src, p, value);
      ElementsRead(src, p + |Show(value)| + |ShowGap(after)| + 1, rest);
      ElementsStep(src, p, Tree(value, p), p + |Show(value)|, p + |Show(value)| + |ShowGap(after)|);
  }

  lemma MoreElements(es: LElements)
    requires es.LElement? && ProperElements(es)
    ensures ShowElements(es) + [RIGHT_BRACKET] == ShowGap(es.gap)
      + (Show(es.value) + (ShowGap(es.after) + ([COMMA] + (ShowElements(es.rest) + [RIGHT_BRACKET]))))
  {
    hide Show, ShowGap, Proper, ProperGap, Follows;
  }

  lemma ElementsStep(src: Text, p: nat, value: Syntax, end: nat, q: nat)
    requires p <= |src| && !At(src, p, RIGHT_BRACKET) && ParseValue(src, p) == Ok(Parsed(value, end))
    requires end <= |src| && SkipTrivia(src, end) == Ok(q)
    ensures At(src, q, RIGHT_BRACKET) ==> ParseElements(src, p) == Ok(Parsed(Element(value, NoElement), q))
    ensures At(src, q, COMMA) && SkipTrivia(src, q + 1).Ok? ==>
      forall rest, next :: ParseElements(src, SkipTrivia(src, q + 1).value) == Ok(Parsed(rest, next)) ==>
        ParseElements(src, p) == Ok(Parsed(Element(value, rest), next))
  {
    hide SkipTrivia, ParseValue;
  }

  lemma MembersStep(src: Text, p: nat, key: Text, inside: nat, value: Syntax, end: nat, q: nat)
    requires p <= |src| && !At(src, p, RIGHT_BRACE) && ParseKey(src, p) == Ok(Parsed(key, inside))
    requires inside <= |src| && ParseValue(src, inside) == Ok(Parsed(value, end))
    requires end <= |src| && SkipTrivia(src, end) == Ok(q)
    ensures At(src, q, RIGHT_BRACE) ==> ParseMembers(src, p) == Ok(Parsed(Member(key, value, NoMember), q))
    ensures At(src, q, COMMA) && SkipTrivia(src, q + 1).Ok? ==>
      forall rest, next :: ParseMembers(src, SkipTrivia(src, q + 1).value) == Ok(Parsed(rest, next)) ==>
        ParseMembers(src, p) == Ok(Parsed(Member(key, value, rest), next))
  {
    hide SkipTrivia, ParseKey, ParseValue;
  }

  lemma Emptied(src: Text, p: nat)
    ensures At(src, p, RIGHT_BRACE) ==> p <= |src| && ParseMembers(src, p) == Ok(Parsed(NoMember, p))
    ensures At(src, p, RIGHT_BRACKET) ==> p <= |src| && ParseElements(src, p) == Ok(Parsed(NoElement, p))
  {
  }

  /** No value begins with a closing delimiter. */
  lemma NoBracketFirst(src: Text, p: nat, v: Layout)
    requires p <= |src| && ParseValue(src, p).Ok? && TokenAt(src, p)
    ensures !At(src, p, RIGHT_BRACKET) && !At(src, p, RIGHT_BRACE)
  {
    hide ParseObject, ParseElements, ParseString;
    TokenStops(src, p);
    if p < |src| { assert ScanAtom(src, p) == p <==> EndsAtom(src[p]); }
  }

  lemma KeyStep(src: Text, p: nat, l: Literal, end: nat, c: nat)
    requires p <= |src| && ParseString(src, p) == Ok(Parsed(l, end))
    requires end <= |src| && SkipTrivia(src, end) == Ok(c) && At(src, c, COLON)
    ensures ParseKey(src, p) == Ok(Parsed(l.value, c + 1))
  {
    hide SkipTrivia, ParseString;
  }

  lemma KeyReads(src: Text, i: nat, gap: Gap, key: seq<Letter>, colon: Gap, more: Text)
    requires ProperGap(gap) && ProperLetters(key) && ProperGap(colon)
    requires Holds(src, i, ShowGap(gap) + (ShowKey(key, colon) + more))
    ensures var p := i + |ShowGap(gap)|;
            var q := p + |ShowKey(key, colon)|;
            && p < q <= |src| && SkipTrivia(src, i) == Ok(p) && src[p] == QUOTE
            && ParseKey(src, p) == Ok(Parsed(Value(key), q)) && Holds(src, q, more)
  {
    hide Holds, SkipTrivia, ShowGap, ShowString, ParseString, ParseKey, Value, TokenAt, ProperGap, ProperLetters;
    var p := i + |ShowGap(gap)|;
    var end := p + |ShowString(key)|;
    HoldsParts(src, i, ShowGap(gap), ShowKey(key, colon) + more);
    HoldsParts(src, p, ShowKey(key, colon), more);
    HoldsParts(src, p, ShowString(key), ShowGap(colon) + [COLON]);
    HoldsParts(src, end, ShowGap(colon), [COLON]);
    HoldsAt(src, end + |ShowGap(colon)|, [COLON], 0);
    StringReads(src, p, key);
    GapEnds(src, i, gap);
    DelimitersAreTokens(src, end + |ShowGap(colon)|);
    GapEnds(src, end, colon);
    KeyStep(src, p, Literal(p, end, Value(key)), end, end + |ShowGap(colon)|);
  }

  lemma {:induction false} MemberReads(src: Text, i: nat, gap: Gap, key: seq<Letter>, colon: Gap, before: Gap,
                                       value: Layout, after: Gap, next: CodeUnit, more: Text)
    requires ProperMember(gap, key, colon, before, after) && Proper(value) && Follows(value, after)
    requires next in [COMMA, RIGHT_BRACE, RIGHT_BRACKET]
    requires Holds(src, i, ShowGap(gap) + (ShowKey(key, colon)
                           + (ShowGap(before) + (Show(value) + (ShowGap(after) + ([next] + more))))))
    ensures var p := i + |ShowGap(gap)|;
            var inside := p + |ShowKey(key, colon)|;
            var start := inside + |ShowGap(before)|;
            var q := start + |Show(value)| + |ShowGap(after)|;
            && SkipTrivia(src, i) == Ok(p) && p < inside <= start < q < |src| && src[p] == QUOTE
            && ParseKey(src, p) == Ok(Parsed(Value(key), inside))
            && ParseValue(src, inside) == Ok(Parsed(Tree(value, start), start + |Show(value)|))
            && SkipTrivia(src, start + |Show(value)|) == Ok(q) && src[q] == next && Holds(src, q + 1, more)
    decreases value, 2
  {
    hide Holds, SkipTrivia, ParseKey, ParseValue, Show, Tree, TokenAt, ShowGap, ShowKey, Proper, ProperGap,
      ProperLetters, Follows, Value;
    KeyReads(src, i, gap, key, colon, ShowGap(before) + (Show(value) + (ShowGap(after) + ([next] + more))));
    ItemReads(src, i + |ShowGap(gap)| + |ShowKey(key, colon)|, before, value, after, next, more);
  }

  lemma {:induction false} MembersRead(src: Text, i: nat, ms: LMembers)
    requires ProperMembers(ms) && Holds(src, i, ShowMembers(ms) + [RIGHT_BRACE])
    ensures var end := i + |ShowMembers(ms)|;
            && i <= end < |src| && SkipTrivia(src, i).Ok?
            && ParseMembers(src, SkipTrivia(src, i).value) == Ok(Parsed(MembersTree(ms, i), end))
    decreases ms, 1
  {
    hide Holds, SkipTrivia, ParseKey, ParseValue, ParseMembers, Show, Tree, TokenAt, ShowGap, ShowKey, Proper,
      ProperGap, ProperLetters, Follows, Value;
    match ms
    case LNoMember(gap) =>
      HoldsParts(src, i, ShowGap(gap), [RIGHT_BRACE]);
      var p := i + |ShowGap(gap)|;
      HoldsAt(src, p, [RIGHT_BRACE], 0);
      DelimitersAreTokens(src, p);
      GapEnds(src, i, gap);
      Emptied(src, p);
    case LLastMember(_, _, _, _, _, _) => LastMemberRead(src, i, ms);
    case LMember(_, _, _, _, _, _, _) => FirstMemberRead(src, i, ms);
  }

  lemma {:induction false} LastMemberRead(src: Text, i: nat, ms: LMembers)
    requires ms.LLastMember? && ProperMembers(ms) && Holds(src, i, ShowMembers(ms) + [RIGHT_BRACE])
    ensures var end := i + |ShowMembers(ms)|;
            && i <= end < |src| && SkipTrivia(src, i).Ok?
            && ParseMembers(src, SkipTrivia(src, i).value) == Ok(Parsed(MembersTree(ms, i), end))
    decreases ms, 0
  {
    hide Holds, SkipTrivia, ParseKey, ParseValue, ParseMembers, Show, Tree, TokenAt, ShowGap, ShowKey, Proper,
      ProperGap, ProperLetters, Follows, Value;
    var LLastMember(gap, key, colon, before, value, after) := ms;
    assert ShowMembers(ms) + [RIGHT_BRACE] == ShowGap(gap) + (ShowKey(key, colon)
      + (ShowGap(before) + (Show(value) + (ShowGap(after) + ([RIGHT_BRACE] + [])))));
    MemberReads(src, i, gap, key, colon, before, value, after, RIGHT_BRACE, []);
    var p, inside := i + |ShowGap(gap)|, i + |ShowGap(gap)| + |ShowKey(key, colon)|;
    var start := inside + |ShowGap(before)|;
    var end := start + |Show(value)|;
    MembersStep(src, p, Value(key), inside, Tree(value, start), end, end + |ShowGap(after)|);
  }

  lemma {:induction false} FirstMemberRead(src: Text, i: nat, ms: LMembers)
    requires ms.LMember? && ProperMembers(ms) && Holds(src, i, ShowMembers(ms) + [RIGHT_BRACE])
    ensures var end := i + |ShowMembers(ms)|;
            && i <= end < |src| && SkipTrivia(src, i).Ok?
            && ParseMembers(src, SkipTrivia(src, i).value) == Ok(Parsed(MembersTree(ms, i), end))
    decreases ms, 0
  {
    hide Holds, SkipTrivia, ParseKey, ParseValue, ParseMembers, Show, Tree, TokenAt, ShowGap, ShowKey, Proper,
      ProperGap, ProperLetters, Follows, Value;
    var LMember(gap, key, colon, before, value, after, rest) := ms;
    MoreMembers(ms);
    MemberReads(src, i, gap, key, colon, before, value, after, COMMA, ShowMembers(rest) + [RIGHT_BRACE]);
    var p, inside := i + |ShowGap(gap)|, i + |ShowGap(gap)| + |ShowKey(key, colon)|;
    var start := inside + |ShowGap(before)|;
    var end := start + |Show(value)|;
    MembersRead(src, end + |ShowGap(after)| + 1, rest);
    MembersStep(src, p, Value(key), inside, Tree(value, start), end, end + |ShowGap(after)|);
  }

  lemma MoreMembers(ms: LMembers)
    requires ms.LMember? && ProperMembers(ms)
    ensures var end := ShowMembers(ms.rest) + [RIGHT_BRACE];
            ShowMembers(ms) + [RIGHT_BRACE] == ShowGap(ms.gap) + (ShowKey(ms.key, ms.colon)
              + (ShowGap(ms.before) + (Show(ms.value) + (ShowGap(ms.after) + ([COMMA] + end)))))
  {
    hide Show, ShowGap, ShowKey, Proper, ProperGap, ProperLetters, Follows;
  }

  // ---------- whole files ----------

  /** One value with trivia around it; `tail` is a comment that runs to the end of the file. */
  datatype FileLayout = FileLayout(before: Gap, root: Layout, after: Gap, tail: Option<Text>)

  predicate ProperFile(file: FileLayout) {
    && ProperGap(file.before) && Proper(file.root) && ProperGap(file.after) && Follows(file.root, file.after)
    && (file.tail.Some? ==> NEWLINE !in file.tail.value && (file.root.LAtom? ==> file.after != []))
  }

  function ShowTail(tail: Option<Text>): Text {
    match tail
    case None => []
    case Some(text) => [SLASH, SLASH] + text
  }

  function ShowFile(file: FileLayout): Text
    requires ProperFile(file)
  {
    ShowGap(file.before) + (Show(file.root) + (ShowGap(file.after) + ShowTail(file.tail)))
  }

  lemma {:induction false} NoNewline(src: Text, i: nat)
    requires i <= |src| && NEWLINE !in src[i..]
    ensures FindNewline(src, i) == None
    decreases |src| - i
  {
    if i < |src| {
      assert src[i] == src[i..][0];
      assert forall u :: u in src[i + 1..] ==> u in src[i..];
      NoNewline(src, i + 1);
    }
  }

  lemma TailSkipped(src: Text, p: nat, tail: Option<Text>)
    requires p <= |src| && src[p..] == ShowTail(tail) && (tail.Some? ==> NEWLINE !in tail.value)
    ensures SkipTrivia(src, p) == Ok(|src|)
  {
    hide IsSpace, FindNewline;
    match tail
    case None =>
    case Some(text) =>
      assert src[p] == src[p..][0] && src[p + 1] == src[p..][1];
      assert src[p + 2..] == src[p..][2..] == text;
      NoNewline(src, p + 2);
      BlanksAreSpace(src[p]);
      SlashIsNoBlank();
  }

  /** Every layout of a file parses to its tree, whatever its whitespace and comments. */
  lemma LayoutParses(file: FileLayout)
    requires ProperFile(file)
    ensures ParseFile(ShowFile(file)) == Ok(Tree(file.root, |ShowGap(file.before)|))
  {
    hide SkipTrivia, ParseValue, Show, Tree, TokenAt, ShowGap, ShowTail, Proper, ProperGap;
    var src := ShowFile(file);
    var p := |ShowGap(file.before)|;
    var end := p + |Show(file.root)|;
    var last := end + |ShowGap(file.after)|;
    assert src[0..|src|] == src;
    HoldsParts(src, 0, ShowGap(file.before), Show(file.root) + (ShowGap(file.after) + ShowTail(file.tail)));
    HoldsParts(src, p, Show(file.root), ShowGap(file.after) + ShowTail(file.tail));
    HoldsParts(src, end, ShowGap(file.after), ShowTail(file.tail));
    assert src[last..] == src[last..last + |ShowTail(file.tail)|] == ShowTail(file.tail);
    RootEnded(src, end, file);
    ValueReads(src, p, file.root);
    GapEnds(src, 0, file.before);
    TokenStops(src, p);
    ValueSkips(src, 0, p);
    GapSkipped(src, end, file.after);
    TailSkipped(src, last, file.tail);
  }

  lemma RootEnded(src: Text, end: nat, file: FileLayout)
    requires ProperFile(file) && end <= |src| && src[end..] == ShowGap(file.after) + ShowTail(file.tail)
    ensures Ended(src, file.root, end)
  {
    if file.root.LAtom? && end < |src| {
      assert src[end] == src[end..][0];
      assert ShowGap(file.after)[0] == file.after[0].unit;
    }
  }
}

/**
  The grammar the lockfile parser accepts, as functions from a position to a syntax tree that
  keeps every value of the text: JSON with comments and trailing commas.
 */
module LockfileSyntax {
  import opened Common
  import opened JsonText

  const NEWLINE: CodeUnit := 0x0A
  const STAR: CodeUnit := 0x2A
  const COMMA: CodeUnit := 0x2C
  const COLON: CodeUnit := 0x3A
  const LEFT_BRACKET: CodeUnit := 0x5B
  const RIGHT_BRACKET: CodeUnit := 0x5D
  const LEFT_BRACE: CodeUnit := 0x7B
  const RIGHT_BRACE: CodeUnit := 0x7D

  datatype Literal = Literal(start: nat, end: nat, value: Text)

  datatype Syntax =
    | Obj(members: Members)
    | Arr(elements: Elements)
    | Str(literal: Literal)
    | Atom(text: Text)

  datatype Members = NoMember | Member(key: Text, value: Syntax, rest: Members)

  datatype Elements = NoElement | Element(value: Syntax, rest: Elements)

  datatype Problem =
    | UnterminatedComment | ExpectedString | UnterminatedString | BadLiteral | ExpectedValue
    | ExpectedObject | ExpectedColon | ExpectedCommaOrBrace | ExpectedCommaOrBracket
    | UnexpectedContent | RootNotObject | WorkspacesNotObject

  datatype Failure = Failure(at: nat, problem: Problem)

  datatype Parsed<+T> = Parsed(node: T, next: nat)

  /** The `\s` class of ECMAScript regular expressions. */
  predicate IsSpace(u: CodeUnit) {
    || 0x09 <= u <= 0x0D || u == 0x20 || u == 0xA0 || u == 0x1680 || 0x2000 <= u <= 0x200A
    || u == 0x2028 || u == 0x2029 || u == 0x202F || u == 0x205F || u == 0x3000 || u == 0xFEFF
  }

  predicate At(src: Text, i: nat, u: CodeUnit) {
    i < |src| && src[i] == u
  }

  function FindNewline(src: Text, i: nat): (r: Option<nat>)
    ensures r.Some? ==> i <= r.value < |src|
    decreases |src| - i
  {
    if i >= |src| then None else if src[i] == NEWLINE then Some(i) else FindNewline(src, i + 1)
  }

  function FindCommentEnd(src: Text, i: nat): (r: Option<nat>)
    ensures r.Some? ==> i <= r.value && r.value + 1 < |src|
    decreases |src| - i
  {
    if i + 1 >= |src| then None
    else if src[i] == STAR && src[i + 1] == SLASH then Some(i)
    else FindCommentEnd(src, i + 1)
  }

  /** The position after the comment that starts at `i`, if one does. */
  function Comment(src: Text, i: nat): (r: Option<Result<nat, Failure>>)
    requires i < |src|
    ensures r.Some? && r.value.Ok? ==> i + 2 <= r.value.value <= |src|
  {
    if src[i] == SLASH && At(src, i + 1, SLASH) then
      match FindNewline(src, i + 2)
      case None => Some(Ok(|src|))
      case Some(newline) => Some(Ok(newline + 1))
    else if src[i] == SLASH && At(src, i + 1, STAR) then
      match FindCommentEnd(src, i + 2)
      case None => Some(Err(Failure(i, UnterminatedComment)))
      case Some(end) => Some(Ok(end + 2))
    else None
  }

  function SkipTrivia(src: Text, i: nat): (r: Result<nat, Failure>)
    requires i <= |src|
    ensures r.Ok? ==> i <= r.value <= |src|
    decreases |src| - i
  {
    if i == |src| then Ok(i)
    else if IsSpace(src[i]) then SkipTrivia(src, i + 1)
    else
      match Comment(src, i)
      case None => Ok(i)
      case Some(Err(failure)) => Err(failure)
      case Some(Ok(next)) => SkipTrivia(src, next)
  }

  /** The span holds, quotes included, a literal with this value. */
  predicate Reads(src: Text, l: Literal) {
    && l.start + 2 <= l.end <= |src| && src[l.start] == QUOTE
    && ParseLiteral(src[l.start..l.end]) == Some(l.value)
  }

  function ParseString(src: Text, i: nat): (r: Result<Parsed<Literal>, Failure>)
    requires i <= |src|
    ensures r.Ok? ==> i <= r.value.node.start < r.value.node.end == r.value.next <= |src|
    ensures r.Ok? ==> Reads(src, r.value.node)
  {
    var start :- SkipTrivia(src, i);
    if !At(src, start, QUOTE) then Err(Failure(start, ExpectedString))
    else
      match ScanString(src, start + 1)
      case Err(at) => Err(Failure(at, UnterminatedString))
      case Ok(end) =>
        match ParseLiteral(src[start..end])
        case None => Err(Failure(end, BadLiteral))
        case Some(value) => Ok(Parsed(Literal(start, end, value), end))
  }

  /** An object key and the colon after it. */
  function ParseKey(src: Text, i: nat): (r: Result<Parsed<Text>, Failure>)
    requires i <= |src|
    ensures r.Ok? ==> i < r.value.next <= |src|
  {
    var key :- ParseString(src, i);
    var c :- SkipTrivia(src, key.next);
    if At(src, c, COLON) then Ok(Parsed(key.node.value, c + 1)) else Err(Failure(c, ExpectedColon))
  }

  predicate EndsAtom(u: CodeUnit) {
    IsSpace(u) || u == COMMA || u == RIGHT_BRACE || u == RIGHT_BRACKET
  }

  function ScanAtom(src: Text, i: nat): (end: nat)
    requires i <= |src|
    ensures i <= end <= |src|
    decreases |src| - i
  {
    if i == |src| || EndsAtom(src[i]) then i else ScanAtom(src, i + 1)
  }

  function ParseValue(src: Text, i: nat): (r: Result<Parsed<Syntax>, Failure>)
    requires i <= |src|
    ensures r.Ok? ==> i < r.value.next <= |src|
    decreases |src| - i, 2
  {
    var p :- SkipTrivia(src, i);
    if At(src, p, QUOTE) then
      var s :- ParseString(src, p);
      Ok(Parsed(Str(s.node), s.next))
    else if At(src, p, LEFT_BRACE) then
      ParseObject(src, p)
    else if At(src, p, LEFT_BRACKET) then
      var first :- SkipTrivia(src, p + 1);
      var es :- ParseElements(src, first);
      Ok(Parsed(Arr(es.node), es.next + 1))
    else
      var end := ScanAtom(src, p);
      if end == p then Err(Failure(p, ExpectedValue)) else Ok(Parsed(Atom(src[p..end]), end))
  }

  /** The elements from a position where trivia is already skipped, up to the bracket at `next`. */
  function ParseElements(src: Text, i: nat): (r: Result<Parsed<Elements>, Failure>)
    requires i <= |src|
    ensures r.Ok? ==> i <= r.value.next && At(src, r.value.next, RIGHT_BRACKET)
    decreases |src| - i, 3
  {
    if At(src, i, RIGHT_BRACKET) then Ok(Parsed(NoElement, i))
    else
      var v :- ParseValue(src, i);
      var p :- SkipTrivia(src, v.next);
      if At(src, p, COMMA) then
        var q :- SkipTrivia(src, p + 1);
        var rest :- ParseElements(src, q);
        Ok(Parsed(Element(v.node, rest.node), rest.next))
      else if At(src, p, RIGHT_BRACKET) then Ok(Parsed(Element(v.node, NoElement), p))
      else Err(Failure(p, ExpectedCommaOrBracket))
  }

  function ParseObject(src: Text, i: nat): (r: Result<Parsed<Syntax>, Failure>)
    requires i <= |src|
    ensures r.Ok? ==> i < r.value.next <= |src| && r.value.node.Obj?
    decreases |src| - i, 1
  {
    var p :- SkipTrivia(src, i);
    if !At(src, p, LEFT_BRACE) then Err(Failure(p, ExpectedObject))
    else
      var first :- SkipTrivia(src, p + 1);
      var ms :- ParseMembers(src, first);
      Ok(Parsed(Obj(ms.node), ms.next + 1))
  }

  /** The members from a position where trivia is already skipped, up to the brace at `next`. */
  function ParseMembers(src: Text, i: nat): (r: Result<Parsed<Members>, Failure>)
    requires i <= |src|
    ensures r.Ok? ==> i <= r.value.next && At(src, r.value.next, RIGHT_BRACE)
    decreases |src| - i, 3
  {
    if At(src, i, RIGHT_BRACE) then Ok(Parsed(NoMember, i))
    else
      var key :- ParseKey(src, i);
      var v :- ParseValue(src, key.next);
      var p :- SkipTrivia(src, v.next);
      if At(src, p, COMMA) then
        var q :- SkipTrivia(src, p + 1);
        var rest :- ParseMembers(src, q);
        Ok(Parsed(Member(key.node, v.node, rest.node), rest.next))
      else if At(src, p, RIGHT_BRACE) then Ok(Parsed(Member(key.node, v.node, NoMember), p))
      else Err(Failure(p, ExpectedCommaOrBrace))
  }

  /** A whole file: one value and nothing after it. */
  function ParseFile(src: Text): Result<Syntax, Failure> {
    var root :- ParseValue(src, 0);
    var end :- SkipTrivia(src, root.next);
    if end != |src| then Err(Failure(end, UnexpectedContent)) else Ok(root.node)
  }

  // ---------- the string values of a tree, in text order ----------

  function Literals(t: Syntax): seq<Literal> {
    match t
    case Obj(members) => MemberLiterals(members)
    case Arr(elements) => ElementLiterals(elements)
    case Str(literal) => [literal]
    case Atom(_) => []
  }

  function MemberLiterals(ms: Members): seq<Literal> {
    match ms
    case NoMember => []
    case Member(_, value, rest) => Literals(value) + MemberLiterals(rest)
  }

  function ElementLiterals(es: Elements): seq<Literal> {
    match es
    case NoElement => []
    case Element(value, rest) => Literals(value) + ElementLiterals(rest)
  }

  /** The literals lie between `lo` and `hi`, each read from its own span and ending before the next. */
  ghost predicate InOrder(src: Text, ls: seq<Literal>, lo: nat, hi: nat) {
    && hi <= |src|
    && (forall k :: 0 <= k < |ls| ==> lo <= ls[k].start && ls[k].end <= hi && Reads(src, ls[k]))
    && (forall j, k :: 0 <= j < k < |ls| ==> ls[j].end <= ls[k].start)
  }

  /** The recorded spans are pairwise disjoint, in text order, and each starts with a quote. */
  lemma {:induction false} ValueLiteralsInOrder(src: Text, i: nat)
    requires i <= |src| && ParseValue(src, i).Ok?
    ensures InOrder(src, Literals(ParseValue(src, i).value.node), i, ParseValue(src, i).value.next)
    decreases |src| - i, 2
  {
    hide SkipTrivia, ScanString, ParseLiteral, ScanAtom, ParseObject, ParseElements, ElementLiterals, MemberLiterals;
    var p := SkipTrivia(src, i).value;
    if At(src, p, QUOTE) {
      var l := ParseString(src, p).value.node;
      assert Literals(ParseValue(src, i).value.node) == [l];
    } else if At(src, p, LEFT_BRACE) {
      ObjectLiteralsInOrder(src, p);
    } else if At(src, p, LEFT_BRACKET) {
      var first := SkipTrivia(src, p + 1).value;
      ElementLiteralsInOrder(src, first);
      var es := ParseElements(src, first).value;
    }
  }

  lemma {:induction false} ObjectLiteralsInOrder(src: Text, i: nat)
    requires i <= |src| && ParseObject(src, i).Ok?
    ensures InOrder(src, Literals(ParseObject(src, i).value.node), i, ParseObject(src, i).value.next)
    decreases |src| - i, 1
  {
    hide SkipTrivia, ParseMembers, MemberLiterals;
    var p := SkipTrivia(src, i).value;
    var first := SkipTrivia(src, p + 1).value;
    MemberLiteralsInOrder(src, first);
    var ms := ParseMembers(src, first).value;
  }

  lemma {:induction false} ElementLiteralsInOrder(src: Text, i: nat)
    requires i <= |src| && ParseElements(src, i).Ok?
    ensures InOrder(src, ElementLiterals(ParseElements(src, i).value.node), i, ParseElements(src, i).value.next)
    decreases |src| - i, 3
  {
    hide SkipTrivia, ParseValue, Literals;
    if !At(src, i, RIGHT_BRACKET) {
      var v := ParseValue(src, i).value;
      ValueLiteralsInOrder(src, i);
      var p := SkipTrivia(src, v.next).value;
      if At(src, p, COMMA) {
        var q := SkipTrivia(src, p + 1).value;
        ElementLiteralsInOrder(src, q);
        var rest := ParseElements(src, q).value;
      } else {
        assert Literals(v.node) + [] == Literals(v.node);
      }
    }
  }

  lemma {:induction false} MemberLiteralsInOrder(src: Text, i: nat)
    requires i <= |src| && ParseMembers(src, i).Ok?
    ensures InOrder(src, MemberLiterals(ParseMembers(src, i).value.node), i, ParseMembers(src, i).value.next)
    decreases |src| - i, 3
  {
    hide SkipTrivia, ParseKey, ParseValue, Literals;
    if !At(src, i, RIGHT_BRACE) {
      var key := ParseKey(src, i).value;
      var v := ParseValue(src, key.next).value;
      ValueLiteralsInOrder(src, key.next);
      var p := SkipTrivia(src, v.next).value;
      if At(src, p, COMMA) {
        var q := SkipTrivia(src, p + 1).value;
        MemberLiteralsInOrder(src, q);
        var rest := ParseMembers(src, q).value;
      } else {
        assert Literals(v.node) + [] == Literals(v.node);
      }
    }
  }
}

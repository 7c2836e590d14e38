/** The parser's own result: object properties by key, string spans, everything else forgotten. */
module LockfileNodes {
  import opened Common
  import opened JsonText
  import opened LockfileSyntax
  import opened LockfileEdit

  datatype JsonNode = ObjectNode(properties: map<Text, JsonNode>) | StringNode(literal: Literal) | OtherNode

  /** What the parser keeps of a syntax tree. */
  function Lower(t: Syntax): JsonNode {
    match t
    case Obj(members) => ObjectNode(LowerMembers(members))
    case Str(literal) => StringNode(literal)
    case _ => OtherNode
  }

  /** A repeated key keeps its last value, as `Map.set` does. */
  function LowerMembers(ms: Members): map<Text, JsonNode> {
    match ms
    case NoMember => map[]
    case Member(key, value, rest) => map[key := Lower(value)] + LowerMembers(rest)
  }

  /** The value of the last member with this key. */
  function LastValue(ms: Members, key: Text): Option<Syntax> {
    match ms
    case NoMember => None
    case Member(k, value, rest) =>
      match LastValue(rest, key)
      case Some(later) => Some(later)
      case None => if k == key then Some(value) else None
  }

  lemma {:induction false} LowerLooksUp(ms: Members, key: Text)
    ensures LastValue(ms, key).Some? <==> key in LowerMembers(ms)
    ensures LastValue(ms, key).Some? ==> LowerMembers(ms)[key] == Lower(LastValue(ms, key).value)
  {
    match ms
    case NoMember =>
    case Member(_, _, rest) => LowerLooksUp(rest, key);
  }

  lemma {:induction false} LastValueMapped(ms: Members, g: Literal -> Literal, key: Text)
    ensures LastValue(MapMembers(ms, g), key)
         == match LastValue(ms, key) case None => None case Some(t) => Some(MapLiterals(t, g))
  {
    match ms
    case NoMember =>
    case Member(_, _, rest) => LastValueMapped(rest, g, key);
  }

  lemma {:induction false} LastValueLiterals(ms: Members, key: Text)
    requires LastValue(ms, key).Some?
    ensures forall l :: l in Literals(LastValue(ms, key).value) ==> l in MemberLiterals(ms)
  {
    match ms
    case NoMember =>
    case Member(_, _, rest) => if LastValue(rest, key).Some? { LastValueLiterals(rest, key); }
  }

  ghost predicate Apart(a: Literal, b: Literal) {
    a.end <= b.start || b.end <= a.start
  }

  /** Literals under different keys of one object do not meet. */
  lemma {:induction false} DifferentKeysApart(src: Text, ms: Members, lo: nat, hi: nat, k1: Text, k2: Text,
                                              l1: Literal, l2: Literal)
    requires InOrder(src, MemberLiterals(ms), lo, hi) && k1 != k2
    requires LastValue(ms, k1).Some? && l1 in Literals(LastValue(ms, k1).value)
    requires LastValue(ms, k2).Some? && l2 in Literals(LastValue(ms, k2).value)
    ensures Apart(l1, l2)
  {
    match ms
    case NoMember =>
    case Member(k, value, rest) =>
      var all, tail := MemberLiterals(ms), MemberLiterals(rest);
      assert all[|Literals(value)|..] == tail;
      assert InOrder(src, tail, lo, hi) by {
        assert forall j :: 0 <= j < |tail| ==> tail[j] == all[|Literals(value)| + j];
      }
      if LastValue(rest, k1).Some? && LastValue(rest, k2).Some? {
        DifferentKeysApart(src, rest, lo, hi, k1, k2, l1, l2);
      } else if LastValue(rest, k1).Some? {
        LastValueLiterals(rest, k1);
        HeadTailApart(src, Literals(value), tail, lo, hi, l2, l1);
      } else if LastValue(rest, k2).Some? {
        LastValueLiterals(rest, k2);
        HeadTailApart(src, Literals(value), tail, lo, hi, l1, l2);
      }
  }

  lemma HeadTailApart(src: Text, a: seq<Literal>, b: seq<Literal>, lo: nat, hi: nat, l1: Literal, l2: Literal)
    requires InOrder(src, a + b, lo, hi) && l1 in a && l2 in b
    ensures Apart(l1, l2)
  {
    var j :| 0 <= j < |a| && a[j] == l1;
    var k :| 0 <= k < |b| && b[k] == l2;
    assert (a + b)[j] == l1 && (a + b)[|a| + k] == l2;
  }
}

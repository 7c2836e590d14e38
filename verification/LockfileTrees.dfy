/** Mapping the literals of a syntax tree, and the tree that a run of splices parses to. */
module LockfileTrees {
  import opened Common
  import opened JsonText
  import opened LockfileSyntax
  import opened LockfileEdit
  import opened LockfileSplices

  lemma {:induction false} MapTwice(t: Syntax, g: Literal -> Literal, h: Literal -> Literal, both: Literal -> Literal)
    requires forall l :: both(l) == h(g(l))
    ensures MapLiterals(MapLiterals(t, g), h) == MapLiterals(t, both)
  {
    match t
    case Obj(members) => MapMembersTwice(members, g, h, both);
    case Arr(elements) => MapElementsTwice(elements, g, h, both);
    case _ =>
  }

  lemma {:induction false} MapMembersTwice(ms: Members, g: Literal -> Literal, h: Literal -> Literal,
                                           both: Literal -> Literal)
    requires forall l :: both(l) == h(g(l))
    ensures MapMembers(MapMembers(ms, g), h) == MapMembers(ms, both)
  {
    match ms
    case NoMember =>
    case Member(_, value, rest) => MapTwice(value, g, h, both); MapMembersTwice(rest, g, h, both);
  }

  lemma {:induction false} MapElementsTwice(es: Elements, g: Literal -> Literal, h: Literal -> Literal,
                                            both: Literal -> Literal)
    requires forall l :: both(l) == h(g(l))
    ensures MapElements(MapElements(es, g), h) == MapElements(es, both)
  {
    match es
    case NoElement =>
    case Element(value, rest) => MapTwice(value, g, h, both); MapElementsTwice(rest, g, h, both);
  }

  lemma {:induction false} MapSame(t: Syntax, g: Literal -> Literal, h: Literal -> Literal)
    requires forall l :: l in Literals(t) ==> g(l) == h(l)
    ensures MapLiterals(t, g) == MapLiterals(t, h)
  {
    match t
    case Obj(members) => MapMembersSame(members, g, h);
    case Arr(elements) => MapElementsSame(elements, g, h);
    case Str(literal) => assert literal in Literals(t);
    case Atom(_) =>
  }

  lemma {:induction false} MapMembersSame(ms: Members, g: Literal -> Literal, h: Literal -> Literal)
    requires forall l :: l in MemberLiterals(ms) ==> g(l) == h(l)
    ensures MapMembers(ms, g) == MapMembers(ms, h)
  {
    match ms
    case NoMember =>
    case Member(_, value, rest) => MapSame(value, g, h); MapMembersSame(rest, g, h);
  }

  lemma {:induction false} MapElementsSame(es: Elements, g: Literal -> Literal, h: Literal -> Literal)
    requires forall l :: l in ElementLiterals(es) ==> g(l) == h(l)
    ensures MapElements(es, g) == MapElements(es, h)
  {
    match es
    case NoElement =>
    case Element(value, rest) => MapSame(value, g, h); MapElementsSame(rest, g, h);
  }

  lemma {:induction false} LiteralMapped(t: Syntax, g: Literal -> Literal, l: Literal)
    requires l in Literals(t)
    ensures g(l) in Literals(MapLiterals(t, g))
  {
    match t
    case Obj(members) => MemberLiteralMapped(members, g, l);
    case Arr(elements) => ElementLiteralMapped(elements, g, l);
    case _ =>
  }

  lemma {:induction false} MemberLiteralMapped(ms: Members, g: Literal -> Literal, l: Literal)
    requires l in MemberLiterals(ms)
    ensures g(l) in MemberLiterals(MapMembers(ms, g))
  {
    match ms
    case NoMember =>
    case Member(_, value, rest) =>
      if l in Literals(value) { LiteralMapped(value, g, l); } else { MemberLiteralMapped(rest, g, l); }
  }

  lemma {:induction false} ElementLiteralMapped(es: Elements, g: Literal -> Literal, l: Literal)
    requires l in ElementLiterals(es)
    ensures g(l) in ElementLiterals(MapElements(es, g))
  {
    match es
    case NoElement =>
    case Element(value, rest) =>
      if l in Literals(value) { LiteralMapped(value, g, l); } else { ElementLiteralMapped(rest, g, l); }
  }

  /** Splicing several recorded literals in turn: the text parses to the tree with all of them changed. */
  lemma {:induction false} FilesEdited(src: Text, t: Syntax, edits: seq<Edit>)
    requires ParseFile(src) == Ok(t) && Stacked(edits, |src|)
    requires forall k :: 0 <= k < |edits| ==> Replaces(edits[k], Literals(t))
    ensures ParseFile(Splices(src, edits)) == Ok(MapLiterals(t, l => MoveAll(edits, l)))
    decreases |edits|
  {
    hide ParseFile, Splice, Moved, Literals, MapLiterals;
    if edits == [] {
      MapSelf(t);
      MapSame(t, l => MoveAll(edits, l), l => l);
    } else {
      var e, rest := edits[0], edits[1..];
      var g := l => MoveLiteral(e, l);
      FileEdited(src, e);
      StackedRest(edits, |src|);
      SpliceKeepsPrefix(src, e);
      forall k | 0 <= k < |rest| ensures Replaces(rest[k], Literals(MapLiterals(t, g))) {
        assert rest[k] == edits[k + 1] && Replaces(edits[k + 1], Literals(t));
        ReplacesMapped(t, e, rest[k]);
      }
      FilesEdited(Splice(src, e), MapLiterals(t, g), rest);
      MapTwice(t, g, l => MoveAll(rest, l), l => MoveAll(edits, l));
    }
  }

  lemma SpliceKeepsPrefix(src: Text, edit: Edit)
    requires edit.start <= edit.end <= |src|
    ensures edit.start <= |Splice(src, edit)|
  {
  }

  lemma ReplacesMapped(t: Syntax, first: Edit, later: Edit)
    requires Replaces(later, Literals(t)) && later.start < later.end <= first.start
    ensures Replaces(later, Literals(MapLiterals(t, l => MoveLiteral(first, l))))
  {
    var l :| l in Literals(t) && l.start == later.start && l.end == later.end;
    LiteralMapped(t, l => MoveLiteral(first, l), l);
    assert MoveLiteral(first, l) == l;
  }

  lemma {:induction false} MapSelf(t: Syntax)
    ensures MapLiterals(t, l => l) == t
  {
    match t
    case Obj(members) => MapMembersSelf(members);
    case Arr(elements) => MapElementsSelf(elements);
    case _ =>
  }

  lemma {:induction false} MapMembersSelf(ms: Members)
    ensures MapMembers(ms, l => l) == ms
  {
    match ms
    case NoMember =>
    case Member(_, value, rest) => MapSelf(value); MapMembersSelf(rest);
  }

  lemma {:induction false} MapElementsSelf(es: Elements)
    ensures MapElements(es, l => l) == es
  {
    match es
    case NoElement =>
    case Element(value, rest) => MapSelf(value); MapElementsSelf(rest);
  }

  /** A map that leaves the tree as it is leaves each of its literals as it is. */
  lemma {:induction false} MapFixes(t: Syntax, g: Literal -> Literal, l: Literal)
    requires MapLiterals(t, g) == t && l in Literals(t)
    ensures g(l) == l
  {
    match t
    case Obj(members) => MapMembersFixes(members, g, l);
    case Arr(elements) => MapElementsFixes(elements, g, l);
    case _ =>
  }

  lemma {:induction false} MapMembersFixes(ms: Members, g: Literal -> Literal, l: Literal)
    requires MapMembers(ms, g) == ms && l in MemberLiterals(ms)
    ensures g(l) == l
  {
    match ms
    case NoMember =>
    case Member(_, value, rest) =>
      if l in Literals(value) { MapFixes(value, g, l); } else { MapMembersFixes(rest, g, l); }
  }

  lemma {:induction false} MapElementsFixes(es: Elements, g: Literal -> Literal, l: Literal)
    requires MapElements(es, g) == es && l in ElementLiterals(es)
    ensures g(l) == l
  {
    match es
    case NoElement =>
    case Element(value, rest) =>
      if l in Literals(value) { MapFixes(value, g, l); } else { MapElementsFixes(rest, g, l); }
  }
}

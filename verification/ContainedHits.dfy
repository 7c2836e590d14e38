/** Of the fuzzy hits, those that lie inside some other hit with their label are left out. */
module ContainedHits {
  import opened Common
  import opened Sorting

  /** A span and its label. */
  datatype Mark = Mark(start: nat, end: nat, name: string)

  /** Labels compare character by character. */
  predicate NameBelow(a: string, b: string) {
    if a == [] then true
    else if b == [] then false
    else a[0] < b[0] || (a[0] == b[0] && NameBelow(a[1..], b[1..]))
  }

  lemma {:induction false} NamesOrdered(a: string, b: string)
    ensures NameBelow(a, b) || NameBelow(b, a)
    ensures NameBelow(a, b) && NameBelow(b, a) ==> a == b
    decreases |a| + |b|
  {
    if a != [] && b != [] && a[0] == b[0] {
      NamesOrdered(a[1..], b[1..]);
      assert a == [a[0]] + a[1..] && b == [b[0]] + b[1..];
    }
  }

  lemma {:induction false} NamesTransitive(a: string, b: string, c: string)
    requires NameBelow(a, b) && NameBelow(b, c)
    ensures NameBelow(a, c)
  {
    if a != [] && a[0] == b[0] == c[0] { NamesTransitive(a[1..], b[1..], c[1..]); }
  }

  /** Labels ascend; within a label starts ascend; at one start a larger end comes before a smaller. */
  predicate Before(a: Mark, b: Mark) {
    NameBelow(a.name, b.name)
    && (a.name == b.name ==> a.start < b.start || (a.start == b.start && b.end <= a.end))
  }

  lemma BeforeIsOrder()
    ensures TotalPreorder(Before)
    ensures forall a, b :: Before(a, b) && Before(b, a) ==> a == b
  {
    forall a, b ensures (Before(a, b) || Before(b, a)) && (Before(a, b) && Before(b, a) ==> a == b) {
      NamesOrdered(a.name, b.name);
    }
    forall a, b, c | Before(a, b) && Before(b, c) ensures Before(a, c) {
      NamesTransitive(a.name, b.name, c.name);
      NamesOrdered(a.name, b.name);
    }
  }

  predicate Contains(c: Mark, m: Mark) {
    c.name == m.name && c != m && c.start <= m.start && m.end <= c.end
  }

  /** Some other hit contains it, or its end is offset zero. */
  ghost predicate Covered(all: seq<Mark>, m: Mark) {
    m.end == 0 || exists c :: c in all && Contains(c, m)
  }

  // ---------- the pass over the sorted hits ----------

  ghost predicate Sorted(a: seq<Mark>) {
    SortedBy(Before, a)
  }

  /** The largest end among earlier hits of the label of hit `i`. */
  ghost predicate IsReach(a: seq<Mark>, i: nat, name: string, reach: nat)
    requires i <= |a|
  {
    && (forall k :: 0 <= k < i && a[k].name == name ==> a[k].end <= reach)
    && (reach == 0 || exists k :: 0 <= k < i && a[k].name == name && a[k].end == reach)
  }

  /** Equal hits stand together. */
  lemma FirstOfEquals(a: seq<Mark>, i: nat)
    requires Sorted(a) && 0 < i < |a| && a[i - 1] != a[i]
    ensures forall k :: 0 <= k < i ==> a[k] != a[i]
  {
    BeforeIsOrder();
    forall k | 0 <= k < i ensures a[k] != a[i] {
      assert Before(a[i - 1], a[i]) && (k < i - 1 ==> Before(a[k], a[i - 1]));
    }
  }

  /** At the first of equal hits, reaching its end means containing it. */
  lemma ReachMeansCovered(a: seq<Mark>, i: nat, reach: nat)
    requires Sorted(a) && i < |a| && IsReach(a, i, a[i].name, reach)
    requires i > 0 ==> a[i - 1] != a[i]
    ensures a[i].end <= reach <==> Covered(a, a[i])
  {
    if a[i].end <= reach && a[i].end > 0 {
      var k :| 0 <= k < i && a[k].name == a[i].name && a[k].end == reach;
      FirstOfEquals(a, i);
      assert Before(a[k], a[i]);
      assert a[k] in a && Contains(a[k], a[i]);
    }
    if Covered(a, a[i]) && a[i].end > 0 {
      var c :| c in a && Contains(c, a[i]);
    }
  }

  /** No hit of a label comes before the first of that label. */
  lemma LabelsTogether(a: seq<Mark>, i: nat)
    requires Sorted(a) && i < |a| && (i > 0 ==> a[i - 1].name != a[i].name)
    ensures forall k :: 0 <= k < i ==> a[k].name != a[i].name
  {
    forall k | 0 <= k < i ensures a[k].name != a[i].name {
      assert k < i - 1 ==> Before(a[k], a[i - 1]);
      assert Before(a[i - 1], a[i]);
      NamesOrdered(a[k].name, a[i - 1].name);
    }
  }

  ghost predicate CoveredSoFar(a: seq<Mark>, i: nat, covering: set<Mark>)
    requires i <= |a|
  {
    forall m :: m in covering <==> m in a[..i] && Covered(a, m)
  }

  method CoveringHits(a: seq<Mark>) returns (covering: set<Mark>)
    requires Sorted(a)
    ensures forall m :: m in covering <==> m in a && Covered(a, m)
  {
    covering := {};
    var currentLabel: Option<string> := None;
    var reach: nat := 0;
    var previous: Option<(nat, nat)> := None;
    for i := 0 to |a|
      invariant CoveredSoFar(a, i, covering)
      invariant currentLabel == if i == 0 then None else Some(a[i - 1].name)
      invariant i > 0 ==> previous == Some((a[i - 1].start, a[i - 1].end))
      invariant i > 0 ==> IsReach(a, i, a[i - 1].name, reach)
    {
      var m := a[i];
      if currentLabel != Some(m.name) {
        LabelsTogether(a, i);
        currentLabel := Some(m.name);
        reach := 0;
        previous := None;
      }
      assert IsReach(a, i, m.name, reach);
      if previous != Some((m.start, m.end)) {
        ReachMeansCovered(a, i, reach);
      }
      if m.end <= reach && previous != Some((m.start, m.end)) {
        covering := covering + {m};
      }
      ExtendCovered(a, i, covering);
      reach := Max(reach, m.end);
      previous := Some((m.start, m.end));
    }
    assert a[..|a|] == a;
  }

  lemma ExtendCovered(a: seq<Mark>, i: nat, covering: set<Mark>)
    requires i < |a|
    requires CoveredSoFar(a, i, covering - {a[i]}) || CoveredSoFar(a, i, covering)
    requires a[i] in covering <==> Covered(a, a[i])
    ensures CoveredSoFar(a, i + 1, covering)
  {
    assert a[..i + 1] == a[..i] + [a[i]];
  }

  function Without(fuzzy: seq<Mark>, covering: set<Mark>): (kept: seq<Mark>) {
    if fuzzy == [] then []
    else Without(fuzzy[..|fuzzy| - 1], covering) + (if fuzzy[|fuzzy| - 1] in covering then [] else [fuzzy[|fuzzy| - 1]])
  }

  /** `fuzzy` without the covered hits of `exact + fuzzy`, in order. */
  ghost function Uncovered(fuzzy: seq<Mark>, all: seq<Mark>): (kept: seq<Mark>) {
    if fuzzy == [] then []
    else
      var last := fuzzy[|fuzzy| - 1];
      Uncovered(fuzzy[..|fuzzy| - 1], all) + (if Covered(all, last) then [] else [last])
  }

  method WithoutContained(fuzzy: seq<Mark>, exact: seq<Mark>) returns (kept: seq<Mark>)
    ensures kept == Uncovered(fuzzy, exact + fuzzy)
  {
    var all := Sort(Before, exact + fuzzy);
    BeforeIsOrder();
    SortSorts(Before, exact + fuzzy);
    SortKeeps(Before, exact + fuzzy);
    SameElements(all, exact + fuzzy);
    var covering := CoveringHits(all);
    kept := Without(fuzzy, covering);
    WithoutIsUncovered(fuzzy, exact + fuzzy, covering);
  }

  lemma {:induction false} WithoutIsUncovered(fuzzy: seq<Mark>, all: seq<Mark>, covering: set<Mark>)
    requires forall m :: m in fuzzy ==> (m in covering <==> Covered(all, m))
    ensures Without(fuzzy, covering) == Uncovered(fuzzy, all)
  {
    if fuzzy != [] { WithoutIsUncovered(fuzzy[..|fuzzy| - 1], all, covering); }
  }

  // ---------- exact and lossless ----------

  /** A fuzzy hit is dropped exactly when it is covered. */
  lemma {:induction false} DroppedIffCovered(fuzzy: seq<Mark>, all: seq<Mark>, m: Mark)
    ensures m in Uncovered(fuzzy, all) <==> m in fuzzy && !Covered(all, m)
  {
    if fuzzy != [] { DroppedIffCovered(fuzzy[..|fuzzy| - 1], all, m); }
  }

  /** A fuzzy hit is dropped exactly when a different hit of its label contains it. Every fuzzy hit
      has a character in front of its end: the whole-word test looks at it. */
  lemma DroppedIffContained(fuzzy: seq<Mark>, exact: seq<Mark>, m: Mark)
    requires m in fuzzy && m.end > 0
    ensures m !in Uncovered(fuzzy, exact + fuzzy) <==> exists c :: c in exact + fuzzy && Contains(c, m)
  {
    DroppedIffCovered(fuzzy, exact + fuzzy, m);
  }

  /** Taken by itself the pass would also drop an empty hit at the start of the text. */
  lemma EmptyHitDropped(name: string)
    ensures var m := Mark(0, 0, name);
            Uncovered([m], [] + [m]) == [] && forall c :: c in [] + [m] ==> !Contains(c, m)
  {
    var m := Mark(0, 0, name);
    DroppedIffCovered([m], [] + [m], m);
    assert |Uncovered([m], [] + [m])| == 0 by { assert [m][..0] == []; }
  }

  ghost predicate CoversOffset(hits: seq<Mark>, name: string, offset: nat) {
    exists m :: m in hits && m.name == name && m.start <= offset < m.end
  }

  /** Every container chain ends at a hit that is kept. */
  lemma {:induction false} KeptContainer(fuzzy: seq<Mark>, exact: seq<Mark>, m: Mark, offset: nat, bound: nat)
    requires m in exact + fuzzy && m.start <= offset < m.end
    requires forall h :: h in exact + fuzzy ==> h.end <= bound
    ensures CoversOffset(exact + Uncovered(fuzzy, exact + fuzzy), m.name, offset)
    decreases bound - (m.end - m.start)
  {
    var all := exact + fuzzy;
    var left := exact + Uncovered(fuzzy, all);
    if m in exact {
      assert m in left;
    } else {
      DroppedIffCovered(fuzzy, all, m);
      if Covered(all, m) {
        var c :| c in all && Contains(c, m);
        KeptContainer(fuzzy, exact, c, offset, bound);
      } else {
        assert m in left;
      }
    }
  }

  function MaxEnd(hits: seq<Mark>): (bound: nat)
    ensures forall h :: h in hits ==> h.end <= bound
  {
    if hits == [] then 0
    else
      assert hits == [hits[0]] + hits[1..];
      Max(hits[0].end, MaxEnd(hits[1..]))
  }

  /** Dropping covered hits changes no label's covered offsets. */
  lemma CoverageKept(fuzzy: seq<Mark>, exact: seq<Mark>, name: string, offset: nat)
    ensures CoversOffset(exact + Uncovered(fuzzy, exact + fuzzy), name, offset) <==>
      CoversOffset(exact + fuzzy, name, offset)
  {
    var all := exact + fuzzy;
    if CoversOffset(all, name, offset) {
      var m :| m in all && m.name == name && m.start <= offset < m.end;
      KeptContainer(fuzzy, exact, m, offset, MaxEnd(all));
    }
    if CoversOffset(exact + Uncovered(fuzzy, all), name, offset) {
      var m :| m in exact + Uncovered(fuzzy, all) && m.name == name && m.start <= offset < m.end;
      DroppedIffCovered(fuzzy, all, m);
      assert m in all;
    }
  }
}

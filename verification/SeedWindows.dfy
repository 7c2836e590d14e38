/** Distances between address seeds in UTF-16 units, and the byte window that stands in for a scan. */
module SeedWindows {
  import opened Common
  import opened Text
  import opened Sorting
  import opened SpanIndexes
  import opened ByteOffsets
  import opened SeedClusters

  function KindRank(kind: SeedType): nat {
    match kind case StreetWord => 0 case PostalCode => 1 case City => 2 case State => 3 case AddressTrigger => 4
  }

  /** By start, then end, then kind. */
  predicate SeedBefore(a: Seed, b: Seed) {
    || a.start < b.start
    || (a.start == b.start && (a.end < b.end || (a.end == b.end && KindRank(a.kind) <= KindRank(b.kind))))
  }

  /** The kinds in their order. */
  const KINDS: seq<SeedType> := [StreetWord, PostalCode, City, State, AddressTrigger]

  /** Seeds are ordered by start, those that start together by end, and those of one span by kind. */
  lemma SeedOrder(a: Seed, b: Seed, j: nat, k: nat)
    requires j < 5 && k < 5 && a.kind == KINDS[j] && b.kind == KINDS[k]
    ensures a.start != b.start ==> (SeedBefore(a, b) <==> a.start < b.start)
    ensures a.start == b.start && a.end != b.end ==> (SeedBefore(a, b) <==> a.end < b.end)
    ensures a.start == b.start && a.end == b.end ==> (SeedBefore(a, b) <==> j <= k)
  {
  }

  ghost predicate SortedSeeds(seeds: seq<Seed>) {
    forall i, j :: 0 <= i < j < |seeds| ==> seeds[i].start <= seeds[j].start
  }

  // ---------- the distance test ----------

  /** At most `maxUnits` units apart, with the two byte tests that decide most pairs at once. */
  function WithinTextWindow(text: string, left: nat, right: nat, maxUnits: nat): bool {
    var start, end := Min(left, right), Max(left, right);
    match Slice(text, start, end)
    case Err(_) => false
    case Ok(gap) =>
      if end - start <= maxUnits then true
      else if end - start > maxUnits * 4 then false
      else Units(gap) <= maxUnits
  }

  /** The byte tests change no answer. */
  lemma WindowIsDistance(text: string, left: nat, right: nat, maxUnits: nat)
    ensures WithinTextWindow(text, left, right, maxUnits)
       <==> Slice(text, Min(left, right), Max(left, right)).Ok?
            && Units(Slice(text, Min(left, right), Max(left, right)).value) <= maxUnits
  {
    match Slice(text, Min(left, right), Max(left, right))
    case Err(_) =>
    case Ok(gap) => BytesPerUnit(gap);
  }

  // ---------- the byte window ----------

  /** The sorted seeds that start within four bytes per unit of `start`. */
  function SeedStartWindow(sortedSeeds: seq<Seed>, start: nat, maxUnits: nat): seq<Seed> {
    var distance := maxUnits * 4;
    var first := PartitionPoint(sortedSeeds, (s: Seed) => s.start < SatSub(start, distance));
    var last := PartitionPoint(sortedSeeds, (s: Seed) => s.start <= start + distance);
    if first <= last then sortedSeeds[first..last] else []
  }

  /** No seed outside the window passes the distance test. */
  lemma WindowKeepsNear(text: string, sortedSeeds: seq<Seed>, start: nat, maxUnits: nat, s: Seed)
    requires SortedSeeds(sortedSeeds) && WithinTextWindow(text, s.start, start, maxUnits)
    ensures s in SeedStartWindow(sortedSeeds, start, maxUnits) <==> s in sortedSeeds
  {
    hide PartitionPoint, Slice, Units;
    var distance := maxUnits * 4;
    var first := PartitionPoint(sortedSeeds, (x: Seed) => x.start < SatSub(start, distance));
    var last := PartitionPoint(sortedSeeds, (x: Seed) => x.start <= start + distance);
    assert start - distance <= s.start <= start + distance;
    if s in sortedSeeds {
      var i :| 0 <= i < |sortedSeeds| && sortedSeeds[i] == s;
      assert sortedSeeds[first..last][i - first] == s;
    }
  }

  /** Asking the window answers the same as asking every seed. */
  lemma WindowIsScan(text: string, sortedSeeds: seq<Seed>, seeds: seq<Seed>, start: nat,
      maxUnits: nat, p: Seed -> bool)
    requires SortedSeeds(sortedSeeds) && forall s :: s in sortedSeeds <==> s in seeds
    ensures (exists s ::
               s in SeedStartWindow(sortedSeeds, start, maxUnits) && WithinTextWindow(text, s.start, start, maxUnits)
               && p(s))
       <==> (exists s :: s in seeds && WithinTextWindow(text, s.start, start, maxUnits) && p(s))
  {
    hide SeedStartWindow, WithinTextWindow;
    forall s: Seed | WithinTextWindow(text, s.start, start, maxUnits)
      ensures s in SeedStartWindow(sortedSeeds, start, maxUnits) <==> s in seeds
    {
      WindowKeepsNear(text, sortedSeeds, start, maxUnits, s);
    }
  }

  // ---------- coverage ----------

  function SpansOf(seeds: seq<Seed>): (spans: seq<Span>)
    ensures |spans| == |seeds|
    ensures forall k :: 0 <= k < |seeds| ==> spans[k] == Span(seeds[k].start, seeds[k].end)
  {
    seq(|seeds|, (k: nat) requires k < |seeds| => Span(seeds[k].start, seeds[k].end))
  }

  predicate SeedCovered(seeds: seq<Seed>, start: nat, end: nat) {
    exists s :: s in seeds && s.start <= start && s.end >= end
  }

  /** The index over sorted seeds answers the same as a scan of the seeds. */
  lemma CoverageIsScan(index: Coverage, sortedSeeds: seq<Seed>, seeds: seq<Seed>, start: nat,
      end: nat)
    requires Indexes(index, SpansOf(sortedSeeds)) && SortedSeeds(sortedSeeds)
    requires forall s :: s in sortedSeeds <==> s in seeds
    ensures Covers(index, start, end) <==> SeedCovered(seeds, start, end)
  {
    hide Indexes, Covers, SpansOf;
    var spans := SpansOf(sortedSeeds);
    CoversIsScan(index, spans, start, end);
    if CoveredBySome(spans, start, end) {
      var x :| x in spans && x.start <= start && end <= x.end;
      var k :| 0 <= k < |spans| && spans[k] == x;
      assert sortedSeeds[k] in seeds;
    }
    if SeedCovered(seeds, start, end) {
      var s :| s in seeds && s.start <= start && s.end >= end;
      var k :| 0 <= k < |sortedSeeds| && sortedSeeds[k] == s;
      assert spans[k] in spans;
    }
  }

  /** Sorting the seeds keeps them and puts their starts in order. */
  lemma SortedBySeedOrder(seeds: seq<Seed>)
    ensures SortedSeeds(Sort(SeedBefore, seeds)) && multiset(Sort(SeedBefore, seeds)) == multiset(seeds)
    ensures forall s :: s in Sort(SeedBefore, seeds) <==> s in seeds
  {
    hide Sort;
    SortSorts(SeedBefore, seeds);
    SortKeeps(SeedBefore, seeds);
    SameElements(Sort(SeedBefore, seeds), seeds);
  }

  // ---------- two sorted lists of starts ----------

  ghost predicate Rising(s: seq<nat>) {
    forall i, j :: 0 <= i < j < |s| ==> s[i] <= s[j]
  }

  /** Merges two lists, sorted ones into a strictly ascending one, and drops repeats. */
  method MergeSortedStarts(left: seq<nat>, right: seq<nat>) returns (starts: seq<nat>)
    ensures Rising(left) && Rising(right) ==> Ascending(starts)
    ensures forall k :: 0 < k < |starts| ==> starts[k - 1] != starts[k]
    ensures forall x :: x in starts <==> x in left || x in right
  {
    starts := [];
    var i: nat, j: nat := 0, 0;
    while i < |left| || j < |right|
      invariant i <= |left| && j <= |right|
      invariant forall k :: 0 < k < |starts| ==> starts[k - 1] != starts[k]
      invariant Rising(left) && Rising(right) ==> Ascending(starts)
      invariant forall x :: x in starts <==> x in left[..i] || x in right[..j]
      invariant Rising(left) && Rising(right) && starts != [] ==>
        (i < |left| ==> starts[|starts| - 1] <= left[i]) && (j < |right| ==> starts[|starts| - 1] <= right[j])
      decreases |left| - i + |right| - j
    {
      var next: nat;
      if i < |left| && (j == |right| || left[i] <= right[j]) {
        next := left[i];
        assert left[..i + 1] == left[..i] + [left[i]];
        i := i + 1;
      } else {
        next := right[j];
        assert right[..j + 1] == right[..j] + [right[j]];
        j := j + 1;
      }
      if starts == [] || starts[|starts| - 1] != next {
        starts := starts + [next];
      }
    }
    assert left[..i] == left && right[..j] == right;
  }
}

/**
  Entities near a span: two sorted copies, of which the smaller half-space is searched, against the
  distance in UTF-16 units that decides.
 */
module Proximity {
  import opened Common
  import opened Text
  import opened Sorting
  import opened SpanIndexes
  import opened ByteOffsets

  const MAX_UTF8_BYTES_PER_UTF16_UNIT: nat := 3

  datatype Entity = Entity(start: U32, end: U32, name: string)

  predicate ByStart(a: Entity, b: Entity) {
    a.start < b.start || (a.start == b.start && a.end <= b.end)
  }

  predicate ByEnd(a: Entity, b: Entity) {
    a.end < b.end || (a.end == b.end && a.start <= b.start)
  }

  // ---------- the distance that decides ----------

  /** UTF-16 units between an entity and `start..end`; none when they overlap. */
  function SpanGapUtf16Units(text: string, e: Entity, start: nat, end: nat): Result<nat, OffsetError> {
    if e.end <= start then Utf16UnitsBetween(text, e.end, start)
    else if end <= e.start then Utf16UnitsBetween(text, end, e.start)
    else Ok(0)
  }

  predicate WithinContextWindow(text: string, e: Entity, start: nat, end: nat, window: nat) {
    var gap := SpanGapUtf16Units(text, e, start, end);
    gap.Ok? && gap.value < window
  }

  /** No further than `window`, counting entities exactly that far away. */
  predicate NoFurther(text: string, e: Entity, start: nat, end: nat, window: nat) {
    var gap := SpanGapUtf16Units(text, e, start, end);
    gap.Ok? && gap.value <= window
  }

  /** The UTF-16 units of the text before byte `a` and before byte `b` differ by `units`. */
  ghost predicate UnitsApart(text: string, a: nat, b: nat, units: nat)
    requires IsBoundary(text, a) && IsBoundary(text, b)
  {
    Units(Prefix(text, a)) + units == Units(Prefix(text, b))
  }

  /** Between ordered spans that do not overlap the gap is the text strictly between them, in units;
      overlapping spans have none; and the distance tests compare it with the window. */
  lemma GapIsTextBetween(text: string, e: Entity, start: U32, end: U32, window: nat)
    requires e.start <= e.end && start <= end && IsBoundary(text, e.start) && IsBoundary(text, e.end)
    requires IsBoundary(text, start) && IsBoundary(text, end)
    ensures SpanGapUtf16Units(text, e, start, end).Ok?
    ensures var gap := SpanGapUtf16Units(text, e, start, end).value;
            && (e.end <= start ==> UnitsApart(text, e.end, start, gap))
            && (end <= e.start && start < e.end ==> UnitsApart(text, end, e.start, gap))
            && (start < e.end && e.start < end ==> gap == 0)
            && (WithinContextWindow(text, e, start, end, window) <==> gap < window)
            && (NoFurther(text, e, start, end, window) <==> gap <= window)
  {
    hide BoundaryAt, Units, Utf16UnitsBetween, Prefix;
  }

  // ---------- the index ----------

  datatype EntityProximityIndex = EntityProximityIndex(byStart: seq<Entity>, byEnd: seq<Entity>)

  ghost predicate IndexOf(index: EntityProximityIndex, entities: seq<Entity>) {
    && multiset(index.byStart) == multiset(index.byEnd) == multiset(entities)
    && SortedBy(ByStart, index.byStart) && SortedBy(ByEnd, index.byEnd)
  }

  function FromEntities(entities: seq<Entity>): (index: EntityProximityIndex)
    ensures IndexOf(index, entities)
    ensures forall i, j :: 0 <= i < j < |index.byStart| ==>
      var (a, b) := (index.byStart[i], index.byStart[j]);
      a.start <= b.start && (a.start == b.start ==> a.end <= b.end)
    ensures forall i, j :: 0 <= i < j < |index.byEnd| ==>
      var (a, b) := (index.byEnd[i], index.byEnd[j]);
      a.end <= b.end && (a.end == b.end ==> a.start <= b.start)
  {
    SortSorts(ByStart, entities);
    SortKeeps(ByStart, entities);
    SortSorts(ByEnd, Sort(ByStart, entities));
    SortKeeps(ByEnd, Sort(ByStart, entities));
    EntityProximityIndex(Sort(ByStart, entities), Sort(ByEnd, Sort(ByStart, entities)))
  }

  /** The byte range outside which no entity can be near enough. */
  function MinimumEnd(start: nat, window: nat): nat {
    SatSub(start, SatMul(window, MAX_UTF8_BYTES_PER_UTF16_UNIT))
  }

  function MaximumStart(end: nat, window: nat): nat {
    SatAdd(end, SatMul(window, MAX_UTF8_BYTES_PER_UTF16_UNIT))
  }

  predicate InRange(e: Entity, minimumEnd: nat, maximumStart: nat) {
    e.end >= minimumEnd && e.start <= maximumStart
  }

  /** The smaller of the two half-spaces. */
  function HalfSpace(index: EntityProximityIndex, minimumEnd: nat, maximumStart: nat): (half: seq<Entity>) {
    var startCandidates := PartitionPoint(index.byStart, (e: Entity) => e.start <= maximumStart);
    var firstEndCandidate := PartitionPoint(index.byEnd, (e: Entity) => e.end < minimumEnd);
    if startCandidates <= |index.byEnd| - firstEndCandidate then index.byStart[..startCandidates]
    else index.byEnd[firstEndCandidate..]
  }

  /** Neither half-space is smaller than the one that is searched. */
  lemma SmallerHalf(index: EntityProximityIndex, minimumEnd: nat, maximumStart: nat)
    ensures var half := |HalfSpace(index, minimumEnd, maximumStart)|;
            && half <= PartitionPoint(index.byStart, (e: Entity) => e.start <= maximumStart)
            && half <= |index.byEnd| - PartitionPoint(index.byEnd, (e: Entity) => e.end < minimumEnd)
  {
  }

  // ---------- walking the half-space ----------

  function Filter<T>(p: T -> bool, s: seq<T>): (r: seq<T>) {
    if s == [] then [] else (if p(s[0]) then [s[0]] else []) + Filter(p, s[1..])
  }

  /** Walks the chosen half-space and hands out what lies in the byte range. */
  class NearbyEntities {
    const entities: seq<Entity>
    var next: nat
    const minimumEnd: nat
    const maximumStart: nat

    ghost predicate Valid() reads this { next <= |entities| }

    /** What is still to be handed out. */
    ghost function Remaining(): seq<Entity>
      requires Valid()
      reads this
    {
      Filter((e: Entity) => InRange(e, minimumEnd, maximumStart), entities[next..])
    }

    constructor (index: EntityProximityIndex, start: nat, end: nat, window: nat)
      ensures Valid() && Remaining() == Nearby(index, start, end, window)
    {
      minimumEnd := MinimumEnd(start, window);
      maximumStart := MaximumStart(end, window);
      entities := HalfSpace(index, MinimumEnd(start, window), MaximumStart(end, window));
      next := 0;
    }

    method Next() returns (entity: Option<Entity>)
      requires Valid()
      modifies this
      ensures Valid()
      ensures old(Remaining()) == match entity case None => [] case Some(e) => [e] + Remaining()
    {
      while next < |entities|
        invariant next <= |entities|
        invariant Remaining() == old(Remaining())
      {
        var e := entities[next];
        next := next + 1;
        assert entities[next - 1..][1..] == entities[next..];
        if InRange(e, minimumEnd, maximumStart) {
          return Some(e);
        }
      }
      entity := None;
    }
  }

  /** Everything one walk hands out. */
  ghost function Nearby(index: EntityProximityIndex, start: nat, end: nat, window: nat): seq<Entity> {
    var lo, hi := MinimumEnd(start, window), MaximumStart(end, window);
    Filter((e: Entity) => InRange(e, lo, hi), HalfSpace(index, lo, hi))
  }

  // ---------- exactness ----------

  lemma {:induction false} FilterCounts<T>(p: T -> bool, s: seq<T>, x: T)
    ensures multiset(Filter(p, s))[x] == if p(x) then multiset(s)[x] else 0
  {
    if s != [] {
      FilterCounts(p, s[1..], x);
      assert s == [s[0]] + s[1..];
    }
  }

  lemma CountInParts<T>(s: seq<T>, n: nat, x: T)
    requires n <= |s|
    ensures multiset(s)[x] == multiset(s[..n])[x] + multiset(s[n..])[x]
  {
    assert s == s[..n] + s[n..];
  }

  lemma BehindStarts(s: seq<Entity>, hi: nat)
    requires SortedBy(ByStart, s)
    ensures forall k :: PartitionPoint(s, (e: Entity) => e.start <= hi) <= k < |s| ==> s[k].start > hi
  {
  }

  /** Half of a sorted list keeps every occurrence of what is in range. */
  lemma HalfSpaceCounts(index: EntityProximityIndex, entities: seq<Entity>, lo: nat, hi: nat,
                         x: Entity)
    requires IndexOf(index, entities) && InRange(x, lo, hi)
    ensures multiset(HalfSpace(index, lo, hi))[x] == multiset(entities)[x]
  {
    hide PartitionPoint, SortedBy;
    var n := PartitionPoint(index.byStart, (e: Entity) => e.start <= hi);
    var m := PartitionPoint(index.byEnd, (e: Entity) => e.end < lo);
    BehindStarts(index.byStart, hi);
    CountInParts(index.byStart, n, x);
    CountInParts(index.byEnd, m, x);
  }

  /** A walk hands out every entity in the byte range as often as it occurs, and nothing else. */
  lemma NearbyCounts(index: EntityProximityIndex, entities: seq<Entity>, start: nat, end: nat,
                      window: nat, x: Entity)
    requires IndexOf(index, entities)
    ensures multiset(Nearby(index, start, end, window))[x]
         == if InRange(x, MinimumEnd(start, window), MaximumStart(end, window)) then multiset(entities)[x] else 0
  {
    var lo, hi := MinimumEnd(start, window), MaximumStart(end, window);
    FilterCounts((e: Entity) => InRange(e, lo, hi), HalfSpace(index, lo, hi), x);
    if InRange(x, lo, hi) { HalfSpaceCounts(index, entities, lo, hi, x); }
  }

  /** An entity that ends before the query yet starts behind the byte range. Only one that starts
      behind its own end can. */
  predicate StartsTooLate(e: Entity, start: nat, end: nat, window: nat) {
    e.end <= start && e.start > MaximumStart(end, window)
  }

  /** What is no further than the window lies in the byte range, since a unit takes at most three
      bytes, unless it starts too late. */
  lemma DistanceInRange(text: string, e: Entity, start: U32, end: U32, window: nat)
    requires NoFurther(text, e, start, end, window)
    ensures InRange(e, MinimumEnd(start, window), MaximumStart(end, window)) <==> !StartsTooLate(e, start, end, window)
  {
  }

  /** The near entities of a walk are the near entities of the whole list, with every repetition and
      whichever half-space was walked, exactly when no near entity starts too late. */
  lemma IndexIsExact(text: string, entities: seq<Entity>, start: U32, end: U32, window: nat)
    ensures var near := (e: Entity) => NoFurther(text, e, start, end, window);
            multiset(Filter(near, Nearby(FromEntities(entities), start, end, window))) ==
              multiset(Filter(near, entities))
            <==> forall e :: e in entities && StartsTooLate(e, start, end, window) ==>
              !NoFurther(text, e, start, end, window)
  {
    hide NoFurther, InRange, FromEntities, Nearby, StartsTooLate;
    var near := (e: Entity) => NoFurther(text, e, start, end, window);
    var nearby := Nearby(FromEntities(entities), start, end, window);
    forall x ensures multiset(Filter(near, nearby))[x]
                  == if near(x) && !StartsTooLate(x, start, end, window) then multiset(entities)[x] else 0
    {
      NearCounts(text, entities, start, end, window, x);
    }
    forall x ensures multiset(Filter(near, entities))[x] == if near(x) then multiset(entities)[x] else 0 {
      FilterCounts(near, entities, x);
    }
    forall e ensures e in entities <==> multiset(entities)[e] > 0 {
      assert e in entities <==> e in multiset(entities);
    }
    if multiset(Filter(near, nearby)) == multiset(Filter(near, entities)) {
      forall e | e in entities && StartsTooLate(e, start, end, window) ensures !near(e) {
        assert multiset(Filter(near, nearby))[e] == multiset(Filter(near, entities))[e];
      }
    }
  }

  lemma NearCounts(text: string, entities: seq<Entity>, start: U32, end: U32, window: nat, x: Entity)
    ensures var near := (e: Entity) => NoFurther(text, e, start, end, window);
            multiset(Filter(near, Nearby(FromEntities(entities), start, end, window)))[x]
            == if near(x) && !StartsTooLate(x, start, end, window) then multiset(entities)[x] else 0
  {
    hide NoFurther, InRange, FromEntities, Nearby, StartsTooLate;
    var near := (e: Entity) => NoFurther(text, e, start, end, window);
    FilterCounts(near, Nearby(FromEntities(entities), start, end, window), x);
    NearbyCounts(FromEntities(entities), entities, start, end, window, x);
    if near(x) { DistanceInRange(text, x, start, end, window); }
  }

  /** In particular for a query and entities that do not end before they start. */
  lemma OrderedIndexIsExact(text: string, entities: seq<Entity>, start: U32, end: U32, window: nat)
    requires start <= end && forall e :: e in entities ==> e.start <= e.end
    ensures var near := (e: Entity) => NoFurther(text, e, start, end, window);
            multiset(Filter(near, Nearby(FromEntities(entities), start, end, window))) ==
              multiset(Filter(near, entities))
  {
    hide NoFurther, FromEntities, Nearby;
    IndexIsExact(text, entities, start, end, window);
  }

  /** An entity that starts too late is never handed out, however near its end is. */
  lemma InvertedEntityMissed(e: Entity, start: U32, end: U32, window: nat)
    requires StartsTooLate(e, start, end, window)
    ensures Nearby(FromEntities([e]), start, end, window) == []
  {
    hide FromEntities, Nearby;
    var nearby := Nearby(FromEntities([e]), start, end, window);
    forall x ensures multiset(nearby)[x] == 0 {
      NearbyCounts(FromEntities([e]), [e], start, end, window, x);
    }
    assert multiset(nearby) == multiset{};
    assert |nearby| == |multiset(nearby)|;
  }

  method IsWithinContextWindow(index: EntityProximityIndex, ghost entities: seq<Entity>, text: string,
                               start: U32, end: U32, window: nat) returns (within: bool)
    requires IndexOf(index, entities)
    ensures within <==> exists e :: e in entities && WithinContextWindow(text, e, start, end, window)
                                    && !StartsTooLate(e, start, end, window)
  {
    hide InRange, WithinContextWindow, StartsTooLate, MinimumEnd, MaximumStart, Nearby, HalfSpace, IndexOf, Filter;
    var nearby := new NearbyEntities(index, start, end, window);
    ghost var handedOut: seq<Entity> := [];
    NearbyFindsAny(index, entities, text, start, end, window);
    var entity := nearby.Next();
    while entity.Some?
      invariant nearby.Valid()
      invariant Nearby(index, start, end, window)
             == handedOut + (if entity.Some? then [entity.value] + nearby.Remaining() else [])
      invariant forall e :: e in handedOut ==> !WithinContextWindow(text, e, start, end, window)
      decreases |Nearby(index, start, end, window)| - |handedOut|
    {
      if WithinContextWindow(text, entity.value, start, end, window) {
        assert entity.value in Nearby(index, start, end, window);
        return true;
      }
      handedOut := handedOut + [entity.value];
      assert Nearby(index, start, end, window) == handedOut + nearby.Remaining();
      entity := nearby.Next();
    }
    within := false;
  }

  lemma NearbyFindsAny(index: EntityProximityIndex, entities: seq<Entity>, text: string,
                        start: U32, end: U32, window: nat)
    requires IndexOf(index, entities)
    ensures (exists e :: e in Nearby(index, start, end, window) && WithinContextWindow(text, e, start, end, window))
       <==> (exists e :: e in entities && WithinContextWindow(text, e, start, end, window)
                         && !StartsTooLate(e, start, end, window))
  {
    hide InRange, Nearby, StartsTooLate;
    forall e | WithinContextWindow(text, e, start, end, window)
      ensures e in Nearby(index, start, end, window) <==> e in entities && !StartsTooLate(e, start, end, window)
    {
      NearbyCounts(index, entities, start, end, window, e);
      assert e in multiset(entities) <==> e in entities;
      assert e in multiset(Nearby(index, start, end, window)) <==> e in Nearby(index, start, end, window);
      DistanceInRange(text, e, start, end, window);
    }
  }

  /** The byte test used without an index, with the window on the other side. */
  predicate ByteRangesMayBeWithinWindow(e: Entity, start: nat, end: nat, window: nat) {
    var windowBytes := SatMul(window, MAX_UTF8_BYTES_PER_UTF16_UNIT);
    SatAdd(e.end, windowBytes) >= start && e.start <= SatAdd(end, windowBytes)
  }

  lemma ByteTestsAgree(e: Entity, start: U32, end: U32, window: nat)
    ensures ByteRangesMayBeWithinWindow(e, start, end, window)
       <==> InRange(e, MinimumEnd(start, window), MaximumStart(end, window))
  {
  }
}

/** Merging the ranges of the text that address context is searched in. */
module ScanRanges {
  import opened Common
  import opened Sorting
  import opened SpanIndexes

  ghost predicate Separated(ranges: seq<Span>) {
    forall j, k :: 0 <= j < k < |ranges| ==> ranges[j].end < ranges[k].start
  }

  ghost predicate Inside(r: Span, ranges: seq<Span>) {
    exists m :: m in ranges && m.start <= r.start && r.end <= m.end
  }

  ghost predicate Holds(ranges: seq<Span>, offset: nat) {
    exists r :: r in ranges && r.start <= offset < r.end
  }

  /** What merging the first `i` ranges must have achieved. */
  ghost predicate Merges(merged: seq<Span>, ranges: seq<Span>) {
    && Separated(merged)
    && (forall r :: r in ranges ==> Inside(r, merged))
    && (forall offset: nat :: Holds(merged, offset) ==> Holds(ranges, offset))
  }

  lemma AppendRange(merged: seq<Span>, ranges: seq<Span>, r: Span)
    requires Merges(merged, ranges)
    requires merged != [] ==> merged[|merged| - 1].end < r.start && merged[|merged| - 1].start <= r.start
    ensures Merges(merged + [r], ranges + [r])
  {
    var longer := merged + [r];
    forall x | x in ranges + [r] ensures Inside(x, longer) {
      if x == r {
        assert r in longer;
      } else {
        var m :| m in merged && m.start <= x.start && x.end <= m.end;
        assert m in longer;
      }
    }
    forall offset: nat | Holds(longer, offset) ensures Holds(ranges + [r], offset) {
      var m :| m in longer && m.start <= offset < m.end;
      if m in merged {
        assert Holds(merged, offset);
        var x :| x in ranges && x.start <= offset < x.end;
        assert x in ranges + [r];
      } else {
        assert r in ranges + [r];
      }
    }
  }

  lemma WidenLast(merged: seq<Span>, ranges: seq<Span>, r: Span)
    requires Merges(merged, ranges) && merged != []
    requires merged[|merged| - 1].start <= r.start <= merged[|merged| - 1].end
    ensures var last := merged[|merged| - 1];
            Merges(merged[|merged| - 1 := Span(last.start, Max(last.end, r.end))], ranges + [r])
  {
    hide Inside, Holds;
    var n := |merged| - 1;
    var last := merged[n];
    var widened := merged[n := Span(last.start, Max(last.end, r.end))];
    forall x | x in ranges + [r] ensures Inside(x, widened) {
      if x in ranges { assert Inside(x, merged); }
      WidenedContains(merged, x, r, widened);
    }
    forall offset: nat | Holds(widened, offset) ensures Holds(ranges + [r], offset) {
      WidenedHolds(merged, r, widened, offset);
      HoldsMore(ranges, r, offset);
    }
  }

  lemma WidenedContains(merged: seq<Span>, x: Span, r: Span, widened: seq<Span>)
    requires merged != [] && merged[|merged| - 1].start <= r.start && (Inside(x, merged) || x == r)
    requires var last := merged[|merged| - 1]; widened == merged[|merged| - 1 := Span(last.start, Max(last.end, r.end))]
    ensures Inside(x, widened)
  {
    if x != r {
      var k :| 0 <= k < |merged| && merged[k].start <= x.start && x.end <= merged[k].end;
      assert widened[k] in widened;
    } else {
      assert widened[|merged| - 1] in widened;
    }
  }

  lemma WidenedHolds(merged: seq<Span>, r: Span, widened: seq<Span>, offset: nat)
    requires merged != [] && merged[|merged| - 1].start <= r.start <= merged[|merged| - 1].end
    requires var last := merged[|merged| - 1]; widened == merged[|merged| - 1 := Span(last.start, Max(last.end, r.end))]
    requires Holds(widened, offset)
    ensures Holds(merged, offset) || r.start <= offset < r.end
  {
  }

  lemma HoldsMore(ranges: seq<Span>, r: Span, offset: nat)
    requires Holds(ranges, offset) || r.start <= offset < r.end
    ensures Holds(ranges + [r], offset)
  {
  }

  /** The merged ranges are separated, contain every range, and hold no offset that no range held. */
  method MergeScanRanges(ranges: seq<Span>) returns (merged: seq<Span>)
    ensures Separated(merged)
    ensures forall r :: r in ranges ==> Inside(r, merged)
    ensures forall offset: nat :: Holds(merged, offset) <==> Holds(ranges, offset)
  {
    hide Merges, Inside, Holds, Separated, Sort;
    var sorted := Sort(StartsFirst, ranges);
    SortSorts(StartsFirst, ranges);
    SortKeeps(StartsFirst, ranges);
    SameElements(sorted, ranges);
    merged := [];
    NothingMerged();
    for i := 0 to |sorted|
      invariant Merges(merged, sorted[..i])
      invariant merged == [] <==> i == 0
      invariant merged != [] ==> exists j :: 0 <= j < i && sorted[j].start == merged[|merged| - 1].start
    {
      assert sorted[..i + 1] == sorted[..i] + [sorted[i]];
      assert forall j :: 0 <= j < i ==> StartsFirst(sorted[j], sorted[i]);
      if merged != [] && sorted[i].start <= merged[|merged| - 1].end {
        var last := merged[|merged| - 1];
        WidenLast(merged, sorted[..i], sorted[i]);
        merged := merged[|merged| - 1 := Span(last.start, Max(last.end, sorted[i].end))];
      } else {
        AppendRange(merged, sorted[..i], sorted[i]);
        merged := merged + [sorted[i]];
      }
    }
    assert sorted[..|sorted|] == sorted;
    SameOffsets(merged, sorted, ranges);
  }

  lemma SameOffsets(merged: seq<Span>, sorted: seq<Span>, ranges: seq<Span>)
    requires Merges(merged, sorted) && forall r :: r in sorted <==> r in ranges
    ensures Separated(merged)
    ensures forall r :: r in ranges ==> Inside(r, merged)
    ensures forall offset: nat :: Holds(merged, offset) <==> Holds(ranges, offset)
  {
  }

  lemma NothingMerged()
    ensures Merges([], [])
  {
  }
}

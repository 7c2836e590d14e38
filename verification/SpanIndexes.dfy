/**
  Containment among spans, answered from sorted starts and running maxima of the ends.
 */
module SpanIndexes {
  import opened Common
  import opened Sorting

  /** The number of leading elements that satisfy `p`, as a binary search finds it on partitioned data. */
  function PartitionPoint<T>(s: seq<T>, p: T -> bool): (n: nat)
    ensures n <= |s|
    ensures forall i :: 0 <= i < n ==> p(s[i])
    ensures n < |s| ==> !p(s[n])
  {
    if s == [] || !p(s[0]) then 0 else 1 + PartitionPoint(s[1..], p)
  }

  datatype Span = Span(start: nat, end: nat)

  // ---------- containment ----------

  /** Starts in ascending order, each with the largest end seen up to it. */
  datatype Coverage = Coverage(starts: seq<nat>, maxEnds: seq<nat>)

  ghost predicate SortedByStart(spans: seq<Span>) {
    forall i, j :: 0 <= i < j < |spans| ==> spans[i].start <= spans[j].start
  }

  ghost predicate Indexes(index: Coverage, spans: seq<Span>) {
    && |index.starts| == |index.maxEnds| == |spans|
    && (forall i :: 0 <= i < |spans| ==> index.starts[i] == spans[i].start)
    && (forall i :: 0 <= i < |spans| ==> IsMaxEnd(spans[..i + 1], index.maxEnds[i]))
  }

  ghost predicate IsMaxEnd(spans: seq<Span>, end: nat) {
    && (forall s :: s in spans ==> s.end <= end)
    && (end == 0 || exists s :: s in spans && s.end == end)
  }

  method BuildCoverage(spans: seq<Span>) returns (index: Coverage)
    ensures Indexes(index, spans)
  {
    var starts: seq<nat>, maxEnds: seq<nat> := [], [];
    var maxEnd: nat := 0;
    for k := 0 to |spans|
      invariant IsMaxEnd(spans[..k], maxEnd)
      invariant Indexes(Coverage(starts, maxEnds), spans[..k])
    {
      assert spans[..k + 1] == spans[..k] + [spans[k]];
      starts := starts + [spans[k].start];
      maxEnd := Max(maxEnd, spans[k].end);
      assert IsMaxEnd(spans[..k + 1], maxEnd) by {
        if maxEnd == spans[k].end { assert spans[k] in spans[..k + 1]; }
      }
      maxEnds := maxEnds + [maxEnd];
      forall i | 0 <= i < k + 1 ensures IsMaxEnd(spans[..k + 1][..i + 1], maxEnds[i]) {
        if i < k {
          assert spans[..k + 1][..i + 1] == spans[..k][..i + 1];
        } else {
          assert spans[..k + 1][..i + 1] == spans[..k + 1];
        }
      }
    }
    assert spans[..|spans|] == spans;
    index := Coverage(starts, maxEnds);
  }

  /** Compares `end` with the largest end among the spans that start no later than `start`. */
  function Covers(index: Coverage, start: nat, end: nat): bool {
    var count := PartitionPoint(index.starts, (open: nat) => open <= start);
    0 < count <= |index.maxEnds| && index.maxEnds[count - 1] >= end
  }

  ghost predicate CoveredBySome(spans: seq<Span>, start: nat, end: nat) {
    exists s :: s in spans && s.start <= start && end <= s.end
  }

  /** The prefix-maximum lookup answers the same as a scan of all spans. */
  lemma CoversIsScan(index: Coverage, spans: seq<Span>, start: nat, end: nat)
    requires Indexes(index, spans) && SortedByStart(spans)
    ensures Covers(index, start, end) <==> CoveredBySome(spans, start, end)
  {
    var count := PartitionPoint(index.starts, (open: nat) => open <= start);
    if count > 0 {
      var prefix := spans[..count - 1 + 1];
      assert IsMaxEnd(prefix, index.maxEnds[count - 1]);
      assert forall i :: 0 <= i < count ==> index.starts[i] <= start;
      if Covers(index, start, end) && end > 0 {
        var s :| s in prefix && s.end == index.maxEnds[count - 1];
        var i :| 0 <= i < count && prefix[i] == s;
        assert s == spans[i] && s in spans;
      } else if Covers(index, start, end) {
        assert spans[0] in spans;
      }
      if CoveredBySome(spans, start, end) {
        var s :| s in spans && s.start <= start && end <= s.end;
        var i :| 0 <= i < |spans| && spans[i] == s;
        InPrefix(index, spans, start, i, count);
        assert s == prefix[i] && s in prefix;
      }
    } else if CoveredBySome(spans, start, end) {
      var s :| s in spans && s.start <= start && end <= s.end;
      var i :| 0 <= i < |spans| && spans[i] == s;
      InPrefix(index, spans, start, i, count);
    }
  }

  lemma InPrefix(index: Coverage, spans: seq<Span>, start: nat, i: nat, count: nat)
    requires Indexes(index, spans) && SortedByStart(spans) && i < |spans| && spans[i].start <= start
    requires count == PartitionPoint(index.starts, (open: nat) => open <= start)
    ensures i < count
  {
  }

  predicate StartsFirst(a: Span, b: Span) {
    a.start < b.start || (a.start == b.start && a.end <= b.end)
  }

  /** The gazetteer's index sorts the hits itself. */
  method NewSpanIndex(hits: seq<Span>) returns (index: Coverage)
    ensures forall start: nat, end: nat :: Covers(index, start, end) <==> CoveredBySome(hits, start, end)
  {
    var spans := Sort(StartsFirst, hits);
    SortSorts(StartsFirst, hits);
    SortKeeps(StartsFirst, hits);
    SameElements(spans, hits);
    index := BuildCoverage(spans);
    forall start: nat, end: nat ensures Covers(index, start, end) <==> CoveredBySome(hits, start, end) {
      CoversIsScan(index, spans, start, end);
      assert forall s :: s in spans <==> s in hits;
    }
  }
}

/**
  Collecting postal-code seeds against a coverage index that is frozen before the first candidate,
  and the rescan of the growing list of seeds that it stands in for. The candidates and the shapes
  that regular expressions recognise are parameters.
 */
module PostalSeeds {
  import opened Common
  import opened Text
  import opened Sorting
  import opened SpanIndexes
  import opened ByteOffsets
  import opened OffsetMaps
  import opened SeedClusters
  import opened SeedWindows

  const PLAIN_POSTAL_CONTEXT_WINDOW: nat := 120
  const US_ZIP_CONTEXT_WINDOW: nat := 120

  datatype Found = Found(start: nat, end: nat, text: string)

  /** What the regular expressions and the house-number test answer. `cueMissing` holds for a
      candidate in the Brazilian shape without a Brazilian cue nearby. */
  datatype Rules = Rules(
    boundaries: Found -> bool, cueMissing: Found -> bool, zipPlusFour: Found -> bool,
    stateBefore: nat -> Option<Seed>, houseNumber: Seed -> bool)

  predicate IsPlainFiveDigit(text: string) {
    |text| == 5 && forall k :: 0 <= k < 5 ==> '0' <= text[k] <= '9'
  }

  predicate IsGapChar(c: char) { IsWhitespace(c) || c == ',' }

  predicate AllGap(s: string) { forall k :: 0 <= k < |s| ==> IsGapChar(s[k]) }

  predicate IsCityZipGap(s: string) { s != "" && AllGap(s) }

  predicate GapBetween(text: string, a: nat, b: nat) {
    var gap := Slice(text, a, b);
    gap.Ok? && IsCityZipGap(gap.value)
  }

  // ---------- one candidate against a list of seeds ----------

  predicate PlainContext(rules: Rules, text: string, s: Seed, start: nat, end: nat) {
    match s.kind
    case AddressTrigger => true
    case City => (s.end >= start && s.start <= end + 4) || (s.end <= start && GapBetween(text, s.end, start))
    case State => (s.end >= start && s.start <= end + 4) || (s.end <= start && GapBetween(text, s.end, start))
    case StreetWord => rules.houseNumber(s)
    case PostalCode => false
  }

  predicate ZipContext(rules: Rules, text: string, s: Seed, start: nat) {
    match s.kind
    case AddressTrigger => true
    case City => s.end <= start && GapBetween(text, s.end, start)
    case StreetWord => rules.houseNumber(s)
    case PostalCode => false
    case State => false
  }

  predicate HasPlainContext(rules: Rules, text: string, seeds: seq<Seed>, start: nat, end: nat) {
    exists s :: s in seeds && WithinTextWindow(text, s.start, start, PLAIN_POSTAL_CONTEXT_WINDOW)
      && PlainContext(rules, text, s, start, end)
  }

  predicate HasZipContext(rules: Rules, text: string, seeds: seq<Seed>, start: nat) {
    exists s :: s in seeds && WithinTextWindow(text, s.start, start, US_ZIP_CONTEXT_WINDOW)
      && ZipContext(rules, text, s, start)
  }

  function PostalSeed(c: Found): Seed { Seed(c.start, c.end, PostalCode, c.text) }

  /** The state in front of the candidate as a seed, unless a seed covers it. */
  function StateSeed(rules: Rules, c: Found, covered: (nat, nat) -> bool): seq<Seed> {
    match rules.stateBefore(c.start)
    case None => []
    case Some(state) => if covered(state.start, state.end) then [] else [state]
  }

  /** Whether a candidate is a postal code, given what the seeds say about it. */
  predicate IsPostal(rules: Rules, c: Found, covered: bool, plainContext: bool, zipContext: bool) {
    && rules.boundaries(c)
    && (covered ==> IsPlainFiveDigit(c.text))
    && (IsPlainFiveDigit(c.text) ==> plainContext)
    && !rules.cueMissing(c)
    && (rules.zipPlusFour(c) ==> rules.stateBefore(c.start).Some? || zipContext)
  }

  /** A candidate is taken, going by every seed in `seeds`. */
  predicate Taken(rules: Rules, text: string, seeds: seq<Seed>, c: Found) {
    IsPostal(rules, c, SeedCovered(seeds, c.start, c.end), HasPlainContext(rules, text, seeds, c.start, c.end),
             HasZipContext(rules, text, seeds, c.start))
  }

  /** The candidate is taken together with the state in front of it, which no seed covers. */
  predicate TakenWithState(rules: Rules, text: string, seeds: seq<Seed>, c: Found) {
    var state := rules.stateBefore(c.start);
    && Taken(rules, text, seeds, c) && rules.zipPlusFour(c)
    && state.Some? && !SeedCovered(seeds, state.value.start, state.value.end)
  }

  /** The seeds that a candidate adds when every seed in `seeds` is looked at. */
  function Added(rules: Rules, text: string, seeds: seq<Seed>, c: Found): seq<Seed> {
    if !Taken(rules, text, seeds, c) then []
    else
      (if rules.zipPlusFour(c) then StateSeed(rules, c, (a: nat, b: nat) => SeedCovered(seeds, a, b)) else [])
      + [PostalSeed(c)]
  }

  /** The seed ends before `start`, and there is text between, all of it whitespace or commas. */
  ghost predicate InFrontOf(text: string, s: Seed, start: nat) {
    && s.end < start && Slice(text, s.end, start).Ok?
    && var gap := Slice(text, s.end, start).value;
    forall k :: 0 <= k < |gap| ==> IsWhitespace(gap[k]) || gap[k] == ','
  }

  /** A city or a state shortly in front of five digits makes a postal code of them. */
  lemma DigitsBehindPlaceTaken(rules: Rules, text: string, seeds: seq<Seed>, c: Found, s: Seed)
    requires s in seeds && (s.kind == City || s.kind == State) && InFrontOf(text, s, c.start)
    requires WithinTextWindow(text, s.start, c.start, 120)
    requires |c.text| == 5 && (forall k :: 0 <= k < 5 ==> c.text[k] in "0123456789")
    requires rules.boundaries(c) && !rules.cueMissing(c) && !rules.zipPlusFour(c)
    ensures PostalSeed(c) in Added(rules, text, seeds, c)
  {
    hide SeedCovered, WithinTextWindow;
    FiveDigits(c.text);
    BytesOfGap(text, s.end, c.start);
    assert PlainContext(rules, text, s, c.start, c.end);
    assert HasPlainContext(rules, text, seeds, c.start, c.end);
  }

  lemma FiveDigits(text: string)
    ensures IsPlainFiveDigit(text) <==> |text| == 5 && forall k :: 0 <= k < 5 ==> text[k] in "0123456789"
  {
    if IsPlainFiveDigit(text) {
      forall k | 0 <= k < 5 ensures text[k] in "0123456789" {
        assert "0123456789"[text[k] as int - '0' as int] == text[k];
      }
    }
  }

  /** So does a place that touches the digits, or starts at most four bytes behind them. */
  lemma DigitsByPlaceTaken(rules: Rules, text: string, seeds: seq<Seed>, c: Found, s: Seed)
    requires s in seeds && (s.kind == City || s.kind == State)
    requires s.end >= c.start && s.start <= c.end + 4 && WithinTextWindow(text, s.start, c.start, 120)
    requires IsPlainFiveDigit(c.text) && rules.boundaries(c) && !rules.cueMissing(c) && !rules.zipPlusFour(c)
    ensures PostalSeed(c) in Added(rules, text, seeds, c)
  {
    hide SeedCovered, WithinTextWindow;
    assert PlainContext(rules, text, s, c.start, c.end);
    assert HasPlainContext(rules, text, seeds, c.start, c.end);
  }

  lemma BytesOfGap(text: string, a: nat, b: nat)
    requires a < b && Slice(text, a, b).Ok?
    ensures Slice(text, a, b).value != []
  {
    hide Slice;
    assert Bytes([]) == 0;
  }

  /** A city in front, but not a state, makes a postal code of nine digits; other postal codes and
      distant seeds make none of five. */
  lemma NineDigitsBehindCityTaken(rules: Rules, text: string, seeds: seq<Seed>, c: Found, s: Seed)
    requires s in seeds && s.kind == City && InFrontOf(text, s, c.start)
    requires WithinTextWindow(text, s.start, c.start, 120) && !SeedCovered(seeds, c.start, c.end)
    requires !IsPlainFiveDigit(c.text) && rules.boundaries(c) && !rules.cueMissing(c) && rules.zipPlusFour(c)
    ensures PostalSeed(c) in Added(rules, text, seeds, c)
  {
    hide SeedCovered, WithinTextWindow, StateSeed;
    BytesOfGap(text, s.end, c.start);
    assert ZipContext(rules, text, s, c.start);
    assert HasZipContext(rules, text, seeds, c.start);
  }

  /** Five digits are no postal code with nothing in the window but postal codes, street words that are
      no house numbers, and places that neither touch the digits nor stand in front of them. */
  lemma LoneDigitsNotTaken(rules: Rules, text: string, seeds: seq<Seed>, c: Found)
    requires IsPlainFiveDigit(c.text)
    requires forall s :: s in seeds && WithinTextWindow(text, s.start, c.start, 120) ==>
      || s.kind == PostalCode
      || (s.kind == StreetWord && !rules.houseNumber(s))
      || (s.kind in {City, State} && (s.end < c.start || s.start > c.end + 4) && !InFrontOf(text, s, c.start))
    ensures Added(rules, text, seeds, c) == []
  {
    hide SeedCovered, WithinTextWindow, Slice;
    forall s | s in seeds && WithinTextWindow(text, s.start, c.start, 120)
      ensures !PlainContext(rules, text, s, c.start, c.end)
    {
    }
    assert !HasPlainContext(rules, text, seeds, c.start, c.end);
  }

  /** Nine digits without a state of their own are none with no city in front of them and nothing else
      in the window that speaks for them. */
  lemma LoneNineDigitsNotTaken(rules: Rules, text: string, seeds: seq<Seed>, c: Found)
    requires rules.zipPlusFour(c) && rules.stateBefore(c.start).None?
    requires forall s :: s in seeds && WithinTextWindow(text, s.start, c.start, 120) ==>
      || s.kind == PostalCode || s.kind == State
      || (s.kind == StreetWord && !rules.houseNumber(s))
      || (s.kind == City && !InFrontOf(text, s, c.start))
    ensures Added(rules, text, seeds, c) == []
  {
    hide SeedCovered, WithinTextWindow, Slice, HasPlainContext;
    forall s | s in seeds && WithinTextWindow(text, s.start, c.start, 120)
      ensures !ZipContext(rules, text, s, c.start)
    {
      if s.end == c.start { NoTextBetween(text, c.start); }
    }
    assert !HasZipContext(rules, text, seeds, c.start);
  }

  lemma NoTextBetween(text: string, a: nat)
    ensures Slice(text, a, a).Ok? ==> Slice(text, a, a).value == ""
  {
    hide Bytes, Prefix, BoundaryAt;
  }

  // ---------- rescanning and freezing ----------

  /** What all candidates add when each is held against the seeds and everything added before it. */
  function Rescanned(rules: Rules, text: string, seeds: seq<Seed>, candidates: seq<Found>): seq<Seed> {
    if candidates == [] then []
    else
      var before := Rescanned(rules, text, seeds, candidates[..|candidates| - 1]);
      before + Added(rules, text, seeds + before, candidates[|candidates| - 1])
  }

  /** What all candidates add when each is held against the first seeds only. */
  function Frozen(rules: Rules, text: string, seeds: seq<Seed>, candidates: seq<Found>): seq<Seed> {
    if candidates == [] then []
    else
      Frozen(rules, text, seeds, candidates[..|candidates| - 1])
      + Added(rules, text, seeds, candidates[|candidates| - 1])
  }

  /** The collection as it runs: sorted seeds, one index, byte windows. */
  method CollectPostalCodeSeeds(rules: Rules, text: string, seeds: seq<Seed>,
      candidates: seq<Found>) returns (all: seq<Seed>)
    ensures all == Sort(SeedBefore, seeds) + Frozen(rules, text, seeds, candidates)
  {
    hide Sort, Frozen, Added, Covers, SeedStartWindow, Indexes, SpansOf, SortedSeeds;
    var sorted := Sort(SeedBefore, seeds);
    SortedBySeedOrder(seeds);
    var coverage := BuildCoverage(SpansOf(sorted));
    all := sorted;
    NothingFrozen(rules, text, seeds);
    for i := 0 to |candidates|
      invariant all == sorted + Frozen(rules, text, seeds, candidates[..i])
    {
      var c := candidates[i];
      var added := CandidateSeeds(rules, text, seeds, sorted, coverage, c);
      FrozenMore(rules, text, seeds, candidates, i);
      all := all + added;
    }
    assert candidates[..|candidates|] == candidates;
  }

  method CandidateSeeds(rules: Rules, text: string, ghost seeds: seq<Seed>, sorted: seq<Seed>, coverage: Coverage,
      c: Found)
    returns (added: seq<Seed>)
    requires Indexes(coverage, SpansOf(sorted)) && SortedSeeds(sorted) && forall s :: s in sorted <==> s in seeds
    ensures added == Added(rules, text, seeds, c)
  {
    hide Covers, SeedStartWindow, Indexes, SpansOf, SortedSeeds, HasPlainContext, HasZipContext, SeedCovered;
    added := [];
    CoverageIsScan(coverage, sorted, seeds, c.start, c.end);
    WindowContexts(rules, text, sorted, seeds, c);
    if !rules.boundaries(c) { return; }
    var isPlainFiveDigit := IsPlainFiveDigit(c.text);
    if Covers(coverage, c.start, c.end) && !isPlainFiveDigit { return; }
    if isPlainFiveDigit && !WindowPlainContext(rules, text, sorted, c) { return; }
    if rules.cueMissing(c) { return; }
    if rules.zipPlusFour(c) {
      var state := rules.stateBefore(c.start);
      if state.None? && !WindowZipContext(rules, text, sorted, c) { return; }
      if state.Some? {
        CoverageIsScan(coverage, sorted, seeds, state.value.start, state.value.end);
        if !Covers(coverage, state.value.start, state.value.end) { added := [state.value]; }
      }
    }
    added := added + [PostalSeed(c)];
  }

  predicate WindowPlainContext(rules: Rules, text: string, sorted: seq<Seed>, c: Found) {
    exists s :: s in SeedStartWindow(sorted, c.start, PLAIN_POSTAL_CONTEXT_WINDOW)
      && WithinTextWindow(text, s.start, c.start, PLAIN_POSTAL_CONTEXT_WINDOW)
      && PlainContext(rules, text, s, c.start, c.end)
  }

  predicate WindowZipContext(rules: Rules, text: string, sorted: seq<Seed>, c: Found) {
    exists s :: s in SeedStartWindow(sorted, c.start, US_ZIP_CONTEXT_WINDOW)
      && WithinTextWindow(text, s.start, c.start, US_ZIP_CONTEXT_WINDOW) && ZipContext(rules, text, s, c.start)
  }

  lemma WindowContexts(rules: Rules, text: string, sorted: seq<Seed>, seeds: seq<Seed>, c: Found)
    requires SortedSeeds(sorted) && forall s :: s in sorted <==> s in seeds
    ensures WindowPlainContext(rules, text, sorted, c) == HasPlainContext(rules, text, seeds, c.start, c.end)
    ensures WindowZipContext(rules, text, sorted, c) == HasZipContext(rules, text, seeds, c.start)
  {
    hide SeedStartWindow, WithinTextWindow, PlainContext, ZipContext, SortedSeeds;
    WindowIsScan(text, sorted, seeds, c.start, PLAIN_POSTAL_CONTEXT_WINDOW,
      s => PlainContext(rules, text, s, c.start, c.end));
    WindowIsScan(text, sorted, seeds, c.start, US_ZIP_CONTEXT_WINDOW, s => ZipContext(rules, text, s, c.start));
  }

  lemma NothingFrozen(rules: Rules, text: string, seeds: seq<Seed>)
    ensures Frozen(rules, text, seeds, []) == []
  {
  }

  lemma FrozenMore(rules: Rules, text: string, seeds: seq<Seed>, candidates: seq<Found>, i: nat)
    requires i < |candidates|
    ensures Frozen(rules, text, seeds, candidates[..i + 1])
         == Frozen(rules, text, seeds, candidates[..i]) + Added(rules, text, seeds, candidates[i])
  {
    hide Added;
    assert candidates[..i + 1][..i] == candidates[..i];
  }

  // ---------- what the regular expressions guarantee ----------

  /** The candidate is not empty, starts with a character that is no gap, and is followed only by
      candidates that start behind it; the state in front of it is parted from it by gaps only. */
  ghost predicate WellFound(rules: Rules, text: string, c: Found) {
    && c.start < c.end && Slice(text, c.start, c.end) == Ok(c.text) && c.text != "" && !IsGapChar(c.text[0])
    && match rules.stateBefore(c.start)
       case None => true
       case Some(state) =>
         state.kind == State && state.end <= c.start
         && Slice(text, state.end, c.start).Ok? && AllGap(Slice(text, state.end, c.start).value)
  }

  ghost predicate Apart(candidates: seq<Found>) {
    forall i, j :: 0 <= i < j < |candidates| ==> candidates[i].end <= candidates[j].start
  }

  ghost predicate AllWellFound(rules: Rules, text: string, candidates: seq<Found>) {
    Apart(candidates) && forall i :: 0 <= i < |candidates| ==> WellFound(rules, text, candidates[i])
  }

  /** A slice inside another one is a part of it. */
  lemma InsideIsPart(text: string, a: nat, b: nat, c: nat, d: nat)
    requires Slice(text, a, b).Ok? && Slice(text, c, d).Ok? && a <= c < d <= b
    ensures var part := Slice(text, c, d).value;
            part != [] && exists k :: 0 <= k < |Slice(text, a, b).value| && Slice(text, a, b).value[k] == part[0]
  {
    hide Bytes, BoundaryAt;
    var i, j := BoundaryAt(text, a).value, BoundaryAt(text, b).value;
    var k, m := BoundaryAt(text, c).value, BoundaryAt(text, d).value;
    IndexOrder(text, i, k);
    IndexOrder(text, m, j);
    IndexOrder(text, k, m);
    assert Slice(text, a, b).value == text[i..j] && Slice(text, c, d).value == text[k..m];
    assert text[i..j][k - i] == text[k] == text[k..m][0];
  }

  /** A stretch of gaps has no candidate inside it. */
  lemma NoCandidateInGap(text: string, a: nat, b: nat, c: Found)
    requires c.start < c.end && Slice(text, c.start, c.end) == Ok(c.text) && c.text != "" && !IsGapChar(c.text[0])
    requires Slice(text, a, b).Ok? && a <= c.start && c.end <= b
    ensures !AllGap(Slice(text, a, b).value)
  {
    hide Slice, IsGapChar;
    InsideIsPart(text, a, b, c.start, c.end);
  }

  lemma IndexOrder(text: string, i: nat, j: nat)
    requires i <= |text| && j <= |text| && Bytes(text[..i]) <= Bytes(text[..j])
    ensures i <= j && (Bytes(text[..i]) < Bytes(text[..j]) ==> i < j)
  {
    if j < i { WidthsRise(text, j, i); }
  }

  // ---------- a seed added for an earlier candidate ----------

  /** `s` was added for candidate `e`: its postal code, or the state in front of it. */
  ghost predicate AddedFor(rules: Rules, s: Seed, e: Found) {
    s == PostalSeed(e) || rules.stateBefore(e.start) == Some(s)
  }

  /** It covers no later candidate and gives it no context; only the postal code can cover the state
      in front of it. */
  lemma EarlierSeedIsIdle(rules: Rules, text: string, s: Seed, e: Found, c: Found)
    requires WellFound(rules, text, e) && WellFound(rules, text, c) && e.end <= c.start && AddedFor(rules, s, e)
    ensures !(s.start <= c.start && s.end >= c.end)
    ensures !PlainContext(rules, text, s, c.start, c.end)
    ensures !ZipContext(rules, text, s, c.start)
    ensures match rules.stateBefore(c.start)
            case None => true
            case Some(state) => s.start <= state.start && s.end >= state.end ==> s == PostalSeed(e)
  {
    hide AllGap, Slice, IsGapChar;
    if s != PostalSeed(e) {
      if Slice(text, s.end, c.start).Ok? { NoCandidateInGap(text, s.end, c.start, e); }
      match rules.stateBefore(c.start)
      case None =>
      case Some(state) =>
        if state.end <= s.end { NoCandidateInGap(text, state.end, c.start, e); }
    }
  }

  // ---------- what rescanning adds ----------

  /** The state in front of `c` lies inside an earlier candidate that was taken. */
  ghost predicate Hidden(rules: Rules, text: string, seeds: seq<Seed>, earlier: seq<Found>, c: Found) {
    && rules.stateBefore(c.start).Some?
    && exists k :: 0 <= k < |earlier| && Hides(rules, text, seeds, earlier[k], rules.stateBefore(c.start).value)
  }

  ghost predicate Hides(rules: Rules, text: string, seeds: seq<Seed>, e: Found, state: Seed) {
    Taken(rules, text, seeds, e) && e.start <= state.start && e.end >= state.end
  }

  /** The seeds of a candidate without its state. */
  ghost function Thinned(added: seq<Seed>, hidden: bool): seq<Seed> {
    if hidden && |added| == 2 then added[1..] else added
  }

  /** What the first seeds alone would add, less the hidden states. */
  ghost function Kept(rules: Rules, text: string, seeds: seq<Seed>, candidates: seq<Found>): seq<Seed> {
    if candidates == [] then []
    else
      var n := |candidates| - 1;
      Kept(rules, text, seeds, candidates[..n])
      + Thinned(Added(rules, text, seeds, candidates[n]), Hidden(rules, text, seeds, candidates[..n], candidates[n]))
  }

  lemma AddedShape(rules: Rules, text: string, seeds: seq<Seed>, c: Found)
    ensures var added := Added(rules, text, seeds, c);
            && (added != [] <==> Taken(rules, text, seeds, c))
            && (added != [] ==> added[|added| - 1] == PostalSeed(c))
            && |added| <= 2 && (|added| == 2 <==> TakenWithState(rules, text, seeds, c))
            && (|added| == 2 ==> rules.stateBefore(c.start) == Some(added[0]))
  {
  }

  ghost predicate MadeBy(rules: Rules, text: string, seeds: seq<Seed>, s: Seed, e: Found) {
    AddedFor(rules, s, e) && Taken(rules, text, seeds, e)
  }

  ghost predicate Sourced(rules: Rules, text: string, seeds: seq<Seed>, candidates: seq<Found>, s: Seed) {
    exists k :: 0 <= k < |candidates| && MadeBy(rules, text, seeds, s, candidates[k])
  }

  lemma SourcedStill(rules: Rules, text: string, seeds: seq<Seed>, candidates: seq<Found>, s: Seed)
    requires candidates != [] && Sourced(rules, text, seeds, candidates[..|candidates| - 1], s)
    ensures Sourced(rules, text, seeds, candidates, s)
  {
    hide MadeBy;
    var before := candidates[..|candidates| - 1];
    var k :| 0 <= k < |before| && MadeBy(rules, text, seeds, s, before[k]);
    assert candidates[k] == before[k];
  }

  /** Every kept seed was added for some candidate that was taken. */
  lemma {:induction false} KeptAreAdded(rules: Rules, text: string, seeds: seq<Seed>, candidates: seq<Found>, s: Seed)
    requires s in Kept(rules, text, seeds, candidates)
    ensures Sourced(rules, text, seeds, candidates, s)
  {
    hide Added, Hidden, Sourced, Taken;
    var n := |candidates| - 1;
    if s in Kept(rules, text, seeds, candidates[..n]) {
      KeptAreAdded(rules, text, seeds, candidates[..n], s);
      SourcedStill(rules, text, seeds, candidates, s);
    } else {
      AddedShape(rules, text, seeds, candidates[n]);
      assert MadeBy(rules, text, seeds, s, candidates[n]);
      LastSources(rules, text, seeds, candidates, s);
    }
  }

  lemma LastSources(rules: Rules, text: string, seeds: seq<Seed>, candidates: seq<Found>, s: Seed)
    requires candidates != [] && MadeBy(rules, text, seeds, s, candidates[|candidates| - 1])
    ensures Sourced(rules, text, seeds, candidates, s)
  {
    hide MadeBy;
  }

  /** The postal code of a taken candidate is kept. */
  lemma {:induction false} TakenAreKept(rules: Rules, text: string, seeds: seq<Seed>, candidates: seq<Found>, k: nat)
    requires k < |candidates| && Taken(rules, text, seeds, candidates[k])
    ensures PostalSeed(candidates[k]) in Kept(rules, text, seeds, candidates)
  {
    hide Added, Hidden, Taken;
    var n := |candidates| - 1;
    if k < n {
      assert candidates[..n][k] == candidates[k];
      TakenAreKept(rules, text, seeds, candidates[..n], k);
    } else {
      AddedShape(rules, text, seeds, candidates[n]);
    }
  }

  /** Held against the kept seeds as well, a candidate adds what it adds alone, less a hidden state. */
  lemma AddedAfterKept(rules: Rules, text: string, seeds: seq<Seed>, earlier: seq<Found>, c: Found)
    requires AllWellFound(rules, text, earlier + [c])
    ensures Added(rules, text, seeds + Kept(rules, text, seeds, earlier), c)
         == Thinned(Added(rules, text, seeds, c), Hidden(rules, text, seeds, earlier, c))
  {
    hide Kept, Hidden, PlainContext, ZipContext, WithinTextWindow, WellFound, Apart;
    var kept := Kept(rules, text, seeds, earlier);
    var both := seeds + kept;
    KeptIsIdle(rules, text, seeds, earlier, c);
    assert SeedCovered(both, c.start, c.end) == SeedCovered(seeds, c.start, c.end) by {
      CoveredInBoth(seeds, kept, c.start, c.end);
    }
    assert HasPlainContext(rules, text, both, c.start, c.end) == HasPlainContext(rules, text, seeds, c.start, c.end);
    assert HasZipContext(rules, text, both, c.start) == HasZipContext(rules, text, seeds, c.start);
    match rules.stateBefore(c.start)
    case None =>
    case Some(state) =>
      CoveredInBoth(seeds, kept, state.start, state.end);
      HiddenIsCovered(rules, text, seeds, earlier, c, state);
  }

  lemma CoveredInBoth(seeds: seq<Seed>, kept: seq<Seed>, start: nat, end: nat)
    ensures SeedCovered(seeds + kept, start, end) <==> SeedCovered(seeds, start, end) || SeedCovered(kept, start, end)
  {
  }

  lemma KeptIsIdle(rules: Rules, text: string, seeds: seq<Seed>, earlier: seq<Found>, c: Found)
    requires AllWellFound(rules, text, earlier + [c])
    ensures var kept := Kept(rules, text, seeds, earlier);
            && !SeedCovered(kept, c.start, c.end)
            && (forall s :: s in kept ==>
                 !PlainContext(rules, text, s, c.start, c.end) && !ZipContext(rules, text, s, c.start))
  {
    hide Kept, PlainContext, ZipContext, AllWellFound, Added, Taken, AddedFor, Sourced;
    forall s | s in Kept(rules, text, seeds, earlier)
      ensures !(s.start <= c.start && s.end >= c.end)
      ensures !PlainContext(rules, text, s, c.start, c.end) && !ZipContext(rules, text, s, c.start)
    {
      var e := SourceOf(rules, text, seeds, earlier, c, s);
      EarlierSeedIsIdle(rules, text, s, e, c);
    }
  }

  /** The candidate a kept seed was added for, and how it lies to a later one. */
  lemma SourceOf(rules: Rules, text: string, seeds: seq<Seed>, earlier: seq<Found>, c: Found,
      s: Seed) returns (e: Found)
    requires AllWellFound(rules, text, earlier + [c]) && s in Kept(rules, text, seeds, earlier)
    ensures e in earlier && AddedFor(rules, s, e) && Taken(rules, text, seeds, e)
    ensures WellFound(rules, text, e) && WellFound(rules, text, c) && e.end <= c.start
  {
    hide Kept, WellFound, Added, Taken, AddedFor;
    KeptAreAdded(rules, text, seeds, earlier, s);
    var k :| 0 <= k < |earlier| && MadeBy(rules, text, seeds, s, earlier[k]);
    var all := earlier + [c];
    assert all[k] == earlier[k] && all[|earlier|] == c;
    e := earlier[k];
  }

  lemma HiddenIsCovered(rules: Rules, text: string, seeds: seq<Seed>, earlier: seq<Found>,
      c: Found, state: Seed)
    requires AllWellFound(rules, text, earlier + [c]) && rules.stateBefore(c.start) == Some(state)
    ensures Hidden(rules, text, seeds, earlier, c) <==>
      SeedCovered(Kept(rules, text, seeds, earlier), state.start, state.end)
  {
    hide Kept, PlainContext, ZipContext, AllWellFound, Added, Taken, AddedFor, WellFound;
    var kept := Kept(rules, text, seeds, earlier);
    if Hidden(rules, text, seeds, earlier, c) {
      var k :| 0 <= k < |earlier| && Hides(rules, text, seeds, earlier[k], state);
      TakenAreKept(rules, text, seeds, earlier, k);
      assert PostalSeed(earlier[k]) in kept;
    }
    if SeedCovered(kept, state.start, state.end) {
      var s :| s in kept && s.start <= state.start && s.end >= state.end;
      var e := SourceOf(rules, text, seeds, earlier, c, s);
      EarlierSeedIsIdle(rules, text, s, e, c);
      var k :| 0 <= k < |earlier| && earlier[k] == e;
      assert Hides(rules, text, seeds, earlier[k], state);
    }
  }

  /** Rescanning adds what the first seeds alone would add, less every hidden state. */
  lemma {:induction false} RescannedIsKept(rules: Rules, text: string, seeds: seq<Seed>, candidates: seq<Found>)
    requires AllWellFound(rules, text, candidates)
    ensures Rescanned(rules, text, seeds, candidates) == Kept(rules, text, seeds, candidates)
  {
    hide Added, Hidden, WellFound;
    if candidates != [] {
      var n := |candidates| - 1;
      assert candidates == candidates[..n] + [candidates[n]];
      RescannedIsKept(rules, text, seeds, candidates[..n]);
      AddedAfterKept(rules, text, seeds, candidates[..n], candidates[n]);
    }
  }

  // ---------- when the two agree ----------

  /** Held against the first seeds alone, no candidate is taken with a state that lies inside an
      earlier candidate taken. */
  ghost predicate NoStateHidden(rules: Rules, text: string, seeds: seq<Seed>, candidates: seq<Found>) {
    forall k :: 0 <= k < |candidates| ==> !LosesState(rules, text, seeds, candidates, k)
  }

  ghost predicate LosesState(rules: Rules, text: string, seeds: seq<Seed>, candidates: seq<Found>, k: nat)
    requires k < |candidates|
  {
    TakenWithState(rules, text, seeds, candidates[k]) && Hidden(rules, text, seeds, candidates[..k], candidates[k])
  }

  /** Rescanning never adds more, and adds as much only when no state is hidden. */
  lemma {:induction false} KeptAgainstFrozen(rules: Rules, text: string, seeds: seq<Seed>, candidates: seq<Found>)
    ensures |Kept(rules, text, seeds, candidates)| <= |Frozen(rules, text, seeds, candidates)|
    ensures NoStateHidden(rules, text, seeds, candidates) ==>
      Kept(rules, text, seeds, candidates) == Frozen(rules, text, seeds, candidates)
    ensures !NoStateHidden(rules, text, seeds, candidates) ==>
      |Kept(rules, text, seeds, candidates)| < |Frozen(rules, text, seeds, candidates)|
  {
    hide Added, Hidden, TakenWithState;
    if candidates != [] {
      var n := |candidates| - 1;
      KeptAgainstFrozen(rules, text, seeds, candidates[..n]);
      forall k | 0 <= k < n
        ensures LosesState(rules, text, seeds, candidates, k) <==> LosesState(rules, text, seeds, candidates[..n], k)
      {
        assert candidates[..n][..k] == candidates[..k];
      }
      LastLoses(rules, text, seeds, candidates);
    }
  }

  lemma LastLoses(rules: Rules, text: string, seeds: seq<Seed>, candidates: seq<Found>)
    requires candidates != []
    ensures var n := |candidates| - 1;
            var added := Added(rules, text, seeds, candidates[n]);
            var thinned := Thinned(added, Hidden(rules, text, seeds, candidates[..n], candidates[n]));
            if LosesState(rules, text, seeds, candidates, n) then |thinned| == |added| - 1 else thinned == added
  {
    hide Added, Hidden, TakenWithState;
    AddedShape(rules, text, seeds, candidates[|candidates| - 1]);
  }

  /** The frozen index gives the same seeds as rescanning exactly when no state is hidden. */
  lemma FrozenIsRescanned(rules: Rules, text: string, seeds: seq<Seed>, candidates: seq<Found>)
    requires AllWellFound(rules, text, candidates)
    ensures multiset(Sort(SeedBefore, seeds) + Frozen(rules, text, seeds, candidates))
            == multiset(seeds + Rescanned(rules, text, seeds, candidates))
       <==> NoStateHidden(rules, text, seeds, candidates)
  {
    hide Sort, Frozen, Rescanned, Kept, NoStateHidden, WellFound, Apart;
    SortedBySeedOrder(seeds);
    RescannedIsKept(rules, text, seeds, candidates);
    KeptAgainstFrozen(rules, text, seeds, candidates);
    var sorted, frozen := Sort(SeedBefore, seeds), Frozen(rules, text, seeds, candidates);
    var kept := Kept(rules, text, seeds, candidates);
    assert |multiset(sorted + frozen)| == |multiset(seeds)| + |frozen|;
    assert |multiset(seeds + kept)| == |multiset(seeds)| + |kept|;
    assert multiset(sorted + frozen) == multiset(sorted) + multiset(frozen);
    assert multiset(seeds + kept) == multiset(seeds) + multiset(kept);
  }

  /** No state is hidden while states start with a character that no candidate holds: states are
      letters, and postal codes are digits, dashes and spaces. */
  lemma LettersAreNotHidden(rules: Rules, text: string, seeds: seq<Seed>, candidates: seq<Found>)
    requires AllWellFound(rules, text, candidates)
    requires forall i, k :: 0 <= i < |candidates| && 0 <= k < |candidates| ==>
      LetteredState(rules, text, candidates[i], candidates[k])
    ensures NoStateHidden(rules, text, seeds, candidates)
  {
    hide WellFound, Apart, Added, Taken;
    forall k | 0 <= k < |candidates| ensures !LosesState(rules, text, seeds, candidates, k) {
      forall i | 0 <= i < k && rules.stateBefore(candidates[k].start).Some?
        ensures !Hides(rules, text, seeds, candidates[..k][i], rules.stateBefore(candidates[k].start).value)
      {
        assert candidates[..k][i] == candidates[i];
        assert LetteredState(rules, text, candidates[i], candidates[k]);
        StateOutside(text, candidates[i], rules.stateBefore(candidates[k].start).value);
      }
    }
  }

  ghost predicate LetteredState(rules: Rules, text: string, e: Found, c: Found) {
    match rules.stateBefore(c.start)
    case None => true
    case Some(state) => Lettered(text, e, state)
  }

  ghost predicate Lettered(text: string, e: Found, state: Seed) {
    && Slice(text, state.start, state.end) == Ok(state.text) && state.text != "" && state.start < state.end
    && Slice(text, e.start, e.end) == Ok(e.text) && state.text[0] !in e.text
  }

  lemma StateOutside(text: string, e: Found, state: Seed)
    requires Lettered(text, e, state)
    ensures !(e.start <= state.start && e.end >= state.end)
  {
    hide Slice;
    if e.start <= state.start && e.end >= state.end {
      InsideIsPart(text, e.start, e.end, state.start, state.end);
    }
  }

  // ---------- an input on which they differ ----------

  /** Two candidates, the second with the "state" 45 in front of it, which is the end of the first. */
  function Overlapping(): (string, Rules, seq<Found>) {
    ("123 45" + ", " + "94304-1050",
     Rules((c: Found) => true, (c: Found) => false, (c: Found) => c.start == 8,
           (start: nat) => if start == 8 then Some(Seed(4, 6, State, "45")) else None, (s: Seed) => false),
     [Found(0, 6, "123 45"), Found(8, 18, "94304-1050")])
  }

  /** With a state abbreviation made of digits the frozen index adds a state that a rescan does not. */
  lemma DigitStateHidden()
    ensures var (text, rules, candidates) := Overlapping();
            && AllWellFound(rules, text, candidates)
            && |Rescanned(rules, text, [], candidates)| < |Frozen(rules, text, [], candidates)|
  {
    var (text, rules, candidates) := Overlapping();
    OverlappingIsWellFound();
    FirstIsTaken();
    var c, state := candidates[1], Seed(4, 6, State, "45");
    assert !SeedCovered([], c.start, c.end) && !SeedCovered([], state.start, state.end);
    assert Added(rules, text, [], c) == [state, PostalSeed(c)];
    assert candidates[..1][0] == candidates[0] && Hides(rules, text, [], candidates[..1][0], state);
    assert LosesState(rules, text, [], candidates, 1);
    RescannedIsKept(rules, text, [], candidates);
    KeptAgainstFrozen(rules, text, [], candidates);
  }

  lemma FirstIsTaken()
    ensures var (text, rules, candidates) := Overlapping(); Taken(rules, text, [], candidates[0])
  {
    var (text, rules, candidates) := Overlapping();
    assert !SeedCovered([], candidates[0].start, candidates[0].end);
  }

  lemma OverlappingIsWellFound()
    ensures var (text, rules, candidates) := Overlapping(); AllWellFound(rules, text, candidates)
  {
    hide Slice, Bytes;
    var (text, rules, candidates) := Overlapping();
    ThreeSlices("123 45", ", ", "94304-1050");
  }

  lemma ThreeSlices(a: string, b: string, c: string)
    requires IsAscii(a) && IsAscii(b) && IsAscii(c)
    ensures var text := a + b + c;
            && Slice(text, 0, |a|) == Ok(a) && Slice(text, |a|, |a| + |b|) == Ok(b)
            && Slice(text, |a| + |b|, |a| + |b| + |c|) == Ok(c)
  {
    hide Slice, Prefix, BoundaryAt, Bytes;
    var text := a + b + c;
    AsciiSlice(text, 0, |a|);
    AsciiSlice(text, |a|, |a| + |b|);
    AsciiSlice(text, |a| + |b|, |text|);
    assert text[0..|a|] == a && text[|a|..|a| + |b|] == b && text[|a| + |b|..|text|] == c;
  }

  lemma AsciiSlice(text: string, a: nat, b: nat)
    requires IsAscii(text) && a <= b <= |text|
    ensures Slice(text, a, b) == Ok(text[a..b])
  {
    hide Bytes;
    AsciiOffsets(text, a);
    AsciiOffsets(text, b);
    BoundaryFound(text, a);
    BoundaryFound(text, b);
  }
}

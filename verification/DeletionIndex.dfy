/**
  The deletion-neighbourhood index over fuzzy gazetteer entries, and the proof that looking
  a span up in it finds exactly the entries a linear scan would find.
 */
module DeletionIndex {
  import opened Common
  import opened EditDistance
  import opened Subsequences
  import opened Sorting

  const MAX_FUZZY_PATTERN_CHARS := 64
  const MAX_FUZZY_DISTANCE := 2
  const MIN_SHORT_FUZZY_LETTERS := 5
  const MIN_FUZZY_LETTERS := 6

  datatype CaseShape = Capitalized | Upper

  datatype RowKind =
    | Exact
    | Fuzzy(folded: string, maxDistance: nat, words: nat, shortShape: Option<CaseShape>)

  // ---------- deletion variants ----------

  /** `v` is `letters` without at most `max` of its letters. */
  ghost predicate Variant(v: string, letters: string, max: nat) {
    Subsequence(v, letters) && |letters| <= |v| + max
  }

  /** The strings one deletion away from `s`, up to letter `n`. */
  ghost function Shortened(s: string, n: nat): set<string>
    requires n <= |s|
  {
    set i | 0 <= i < n :: Without(s, i)
  }

  ghost function ShortenedAll(frontier: seq<string>): set<string> {
    set f, v | 0 <= f < |frontier| && v in Shortened(frontier[f], |frontier[f]|) :: v
  }

  ghost predicate FrontierOf(frontier: seq<string>, letters: string, round: nat) {
    forall v: string :: v in frontier <==> Subsequence(v, letters) && |v| + round == |letters|
  }

  /** Shortening everything at one depth gives everything at the next. */
  lemma NextDepth(frontier: seq<string>, letters: string, round: nat, v: string)
    requires FrontierOf(frontier, letters, round)
    ensures v in ShortenedAll(frontier) <==> Subsequence(v, letters) && |v| + round + 1 == |letters|
  {
    if v in ShortenedAll(frontier) {
      var f, i :| 0 <= f < |frontier| && 0 <= i < |frontier[f]| && v == Without(frontier[f], i);
      assert frontier[f] in frontier;
      DropAny(frontier[f], letters, i);
    }
    if Subsequence(v, letters) && |v| + round + 1 == |letters| {
      var longer, i := OneLetterMore(v, letters);
      assert longer in frontier;
      var f :| 0 <= f < |frontier| && frontier[f] == longer;
      assert v in Shortened(frontier[f], |frontier[f]|);
    }
  }

  /** One round: shortens every string of the frontier, keeping the new ones as the next frontier. */
  method DeleteOnce(known: set<string>, frontier: seq<string>) returns (variants: set<string>, next: seq<string>)
    ensures variants == known + ShortenedAll(frontier)
    ensures forall v: string :: v in next <==> v in variants - known
  {
    variants, next := known, [];
    for f := 0 to |frontier|
      invariant variants == known + ShortenedAll(frontier[..f])
      invariant forall v: string :: v in next <==> v in variants - known
    {
      var variant := frontier[f];
      ghost var sofar := variants;
      for index := 0 to |variant|
        invariant variants == sofar + Shortened(variant, index)
        invariant forall v: string :: v in next <==> v in variants - known
      {
        var shorter := Without(variant, index);
        assert Shortened(variant, index + 1) == Shortened(variant, index) + {shorter};
        if shorter !in variants {
          variants := variants + {shorter};
          next := next + [shorter];
        }
      }
    }
    assert frontier[..|frontier|] == frontier;
  }

  /** Grows a set of variants and the frontier of those found in the last round. */
  method DeletionVariants(letters: string, max: nat) returns (variants: set<string>)
    ensures forall v: string :: v in variants <==> Variant(v, letters, max)
    ensures |variants| <= VariantCount(|letters|, max)
  {
    hide VariantCount;
    variants := {letters};
    var frontier := [letters];
    SubsequenceOfSelf(letters);
    forall v: string | Subsequence(v, letters) && |letters| <= |v| ensures v == letters {
      SubsequenceShorter(v, letters);
    }
    for round := 0 to max
      invariant forall v: string :: v in variants <==> Variant(v, letters, round)
      invariant FrontierOf(frontier, letters, round)
    {
      forall v: string
        ensures v in ShortenedAll(frontier) <==> Subsequence(v, letters) && |v| + round + 1 == |letters|
      {
        NextDepth(frontier, letters, round, v);
      }
      variants, frontier := DeleteOnce(variants, frontier);
    }
    VariantsAreFew(variants, letters, max);
  }

  /** Two strings have a common variant that costs neither more deletions than their distance. */
  lemma {:induction false} CommonVariant(a: string, b: string) returns (v: string)
    ensures Variant(v, a, Levenshtein(a, b)) && Variant(v, b, Levenshtein(a, b))
    decreases |a| + |b|
  {
    if a == [] || b == [] {
      v := [];
    } else if Levenshtein(a, b) == Levenshtein(Init(a), b) + 1 {
      v := CommonVariant(Init(a), b);
    } else if Levenshtein(a, b) == Levenshtein(a, Init(b)) + 1 {
      v := CommonVariant(a, Init(b));
    } else {
      var shorter := CommonVariant(Init(a), Init(b));
      if Last(a) == Last(b) {
        v := shorter + [Last(a)];
        assert Init(v) == shorter;
      } else {
        v := shorter;
      }
    }
  }

  // ---------- how many variants there are ----------

  /** The ways to leave out at most `max` of `n` letters: the last letter stays or goes. */
  function VariantCount(n: nat, max: nat): (count: nat)
    ensures count > 0
  {
    if n == 0 || max == 0 then 1 else VariantCount(n - 1, max) + VariantCount(n - 1, max - 1)
  }

  /** No string has more variants than that. */
  lemma {:induction false} VariantsAreFew(variants: set<string>, letters: string, max: nat)
    requires forall v :: v in variants ==> Variant(v, letters, max)
    ensures |variants| <= VariantCount(|letters|, max)
    decreases |letters|
  {
    if letters == [] || max == 0 {
      forall v | v in variants ensures v == letters { SubsequenceShorter(v, letters); }
      OnlyOne(variants, letters);
    } else {
      var kept := set v | v in variants && v != [] && Last(v) == Last(letters) && Subsequence(Init(v), Init(letters));
      var shorter := set v | v in kept :: Init(v);
      InitsAreAsMany(kept, Last(letters));
      VariantsAreFew(shorter, Init(letters), max);
      VariantsAreFew(variants - kept, Init(letters), max - 1);
      assert |variants| == |kept| + |variants - kept| by { assert variants == kept + (variants - kept); }
    }
  }

  lemma OnlyOne(variants: set<string>, letters: string)
    requires forall v :: v in variants ==> v == letters
    ensures |variants| <= 1
  {
    if variants != {} { assert variants == {letters}; }
  }

  /** Strings that end alike are as many as what precedes that end. */
  lemma {:induction false} InitsAreAsMany(kept: set<string>, last: char)
    requires forall v :: v in kept ==> v != [] && Last(v) == last
    ensures |set v | v in kept :: Init(v)| == |kept|
    decreases |kept|
  {
    if kept != {} {
      var one :| one in kept;
      var rest := kept - {one};
      InitsAreAsMany(rest, last);
      assert forall v :: v in kept ==> v == Init(v) + [last];
      assert (set v | v in kept :: Init(v)) == (set v | v in rest :: Init(v)) + {Init(one)};
    }
  }

  /** With one or two letters left out the count is linear or quadratic in the length. */
  lemma {:induction false} VariantCountIs(n: nat)
    ensures VariantCount(n, 0) == 1 && VariantCount(n, 1) == n + 1
    ensures 2 * VariantCount(n, 2) == n * n + n + 2
  {
    if n > 0 { VariantCountIs(n - 1); }
  }

  lemma {:induction false} VariantCountGrows(n: nat, n': nat, max: nat)
    requires n <= n'
    ensures VariantCount(n, max) <= VariantCount(n', max)
    decreases n' - n
  {
    if n < n' { VariantCountGrows(n, n' - 1, max); }
  }

  /** One more than every choice of at most two letters out of the longest span looked up. */
  const MOST_VARIANTS := 2212

  lemma LookupsAreBounded(n: nat, max: nat)
    requires n <= MAX_FUZZY_PATTERN_CHARS + MAX_FUZZY_DISTANCE && max <= MAX_FUZZY_DISTANCE
    ensures VariantCount(n, max) <= MOST_VARIANTS
  {
    VariantCountGrows(n, MAX_FUZZY_PATTERN_CHARS + MAX_FUZZY_DISTANCE, max);
    VariantCountIs(MAX_FUZZY_PATTERN_CHARS + MAX_FUZZY_DISTANCE);
  }

  // ---------- rows ----------

  /** What a fuzzy entry's text yields: folded letters, characters, words, its proper-noun case,
      and the distance the length scale gives it. */
  datatype FuzzyTerm = FuzzyTerm(folded: string, chars: nat, words: nat,
                                 shape: Option<CaseShape>, automatic: Option<nat>)

  function FuzzyRow(term: FuzzyTerm, distance: Option<nat>): (row: RowKind)
    ensures row.Fuzzy? && row.folded == term.folded && row.words == term.words
    ensures row.maxDistance <= MAX_FUZZY_DISTANCE
    ensures |term.folded| < MIN_SHORT_FUZZY_LETTERS ==> row.maxDistance == 0
    ensures row.shortShape.Some? ==> |term.folded| < MIN_FUZZY_LETTERS
    ensures |term.folded| < MIN_FUZZY_LETTERS && row.maxDistance > 0 ==> row.shortShape.Some? && row.maxDistance == 1
  {
    var shortShape := if |term.folded| < MIN_FUZZY_LETTERS then term.shape else None;
    var cap :=
      if |term.folded| < MIN_SHORT_FUZZY_LETTERS then 0
      else if |term.folded| < MIN_FUZZY_LETTERS then (if shortShape.Some? then 1 else 0)
      else MAX_FUZZY_DISTANCE;
    var wanted :=
      match distance
      case Some(d) => d
      case None => (match term.automatic case Some(d) => d case None => 0);
    Fuzzy(term.folded, Min(wanted, cap), term.words, shortShape)
  }

  /** The distance a caller asked for, or else the one the length scale gives. */
  function Asked(term: FuzzyTerm, distance: Option<nat>): nat {
    match (distance, term.automatic)
    case (Some(d), _) => d
    case (None, Some(d)) => d
    case (None, None) => 0
  }

  /** The span misspells the entry by no more edits than its length lets pass: two from six letters on,
      one for five letters cased as a proper noun, else none. It may lack one of the entry's words. */
  ghost predicate Misspells(term: FuzzyTerm, asked: nat, folded: string, tokens: nat) {
    && |term.folded| <= 64 && (tokens == term.words || tokens + 1 == term.words)
    && (if |term.folded| >= 6 then WithinEdits(folded, term.folded, Min(asked, 2))
        else if |term.folded| == 5 && term.shape.Some? then WithinEdits(folded, term.folded, Min(asked, 1))
        else folded == term.folded)
  }

  predicate TokenCountFits(tokens: nat, words: nat) {
    tokens <= words && tokens + 1 >= words
  }

  /** Fuzzy rows whose length a pattern may have; only these are put into buckets. */
  predicate Indexed(row: RowKind) {
    row.Fuzzy? && |row.folded| <= MAX_FUZZY_PATTERN_CHARS
  }

  /** The row stands for a span of these letters and tokens. */
  predicate Matches(row: RowKind, folded: string, tokens: nat) {
    && Indexed(row)
    && TokenCountFits(tokens, row.words)
    && Levenshtein(folded, row.folded) <= row.maxDistance
  }

  /** The reference: scan every row and measure its distance. */
  function LinearScan(rows: seq<RowKind>, folded: string, tokens: nat): (found: seq<nat>)
    ensures forall r: nat :: r in found <==> r < |rows| && Matches(rows[r], folded, tokens)
    ensures Ascending(found) && forall i :: 0 <= i < |found| ==> found[i] < |rows|
  {
    if rows == [] then []
    else
      var last := |rows| - 1;
      var before := LinearScan(rows[..last], folded, tokens);
      assert forall i :: 0 <= i < |before| ==> before[i] in before;
      before + (if Matches(rows[last], folded, tokens) then [last] else [])
  }

  /** A row added last is found for exactly the spans that misspell its entry, and asks for the
      entry's case shape when that is short. */
  lemma AddedRowFound(rows: seq<RowKind>, term: FuzzyTerm, distance: Option<nat>, folded: string, tokens: nat)
    ensures |rows| in LinearScan(rows + [FuzzyRow(term, distance)], folded, tokens)
       <==> Misspells(term, Asked(term, distance), folded, tokens)
    ensures FuzzyRow(term, distance).shortShape == if |term.folded| < 6 then term.shape else None
  {
    hide Levenshtein, WithinEdits;
    var row := FuzzyRow(term, distance);
    DistanceIsLeastEditCount(folded, row.folded, row.maxDistance);
    ZeroOnlyForEqual(folded, row.folded);
    assert (rows + [row])[|rows|] == row;
  }

  // ---------- entry lengths ----------

  /** The larger of two optional distances. */
  function Larger(a: Option<nat>, b: Option<nat>): Option<nat> {
    match (a, b)
    case (Some(x), Some(y)) => Some(Max(x, y))
    case (Some(_), None) => a
    case (None, _) => b
  }

  predicate Allows(distances: map<nat, nat>, length: nat, letters: nat) {
    length in distances && Diff(length, letters) <= distances[length]
  }

  /** The largest distance among entry lengths in `lo..hi` that `letters` could match. */
  function LargestDistance(distances: map<nat, nat>, letters: nat, lo: nat, hi: nat): (d: Option<nat>)
    requires lo <= hi
    ensures d.None? ==> forall length :: lo <= length < hi ==> !Allows(distances, length, letters)
    ensures d.Some? ==> forall length :: lo <= length < hi && Allows(distances, length, letters) ==>
      distances[length] <= d.value
    ensures d.Some? ==> exists length ::
      lo <= length < hi && Allows(distances, length, letters) && distances[length] == d.value
    decreases hi - lo
  {
    if lo == hi then None
    else
      var here := if Allows(distances, lo, letters) then Some(distances[lo]) else None;
      Larger(here, LargestDistance(distances, letters, lo + 1, hi))
  }

  function DistanceFor(distances: map<nat, nat>, letters: nat): Option<nat> {
    LargestDistance(distances, letters, Max(letters - MAX_FUZZY_DISTANCE, 0), letters + MAX_FUZZY_DISTANCE + 1)
  }

  /** `distances` holds, for each indexed length, the largest distance of an entry that long. */
  ghost predicate Summarises(distances: map<nat, nat>, rows: seq<RowKind>) {
    && (forall r :: 0 <= r < |rows| && Indexed(rows[r]) ==>
          |rows[r].folded| in distances && rows[r].maxDistance <= distances[|rows[r].folded|])
    && (forall length :: length in distances ==>
          exists r :: 0 <= r < |rows| && Indexed(rows[r]) && |rows[r].folded| == length
            && rows[r].maxDistance == distances[length])
  }

  class FuzzyShape {
    var distances: map<nat, nat>
    var maxChars: nat

    constructor ()
      ensures distances == map[] && maxChars == 0
    {
      distances, maxChars := map[], 0;
    }

    method Add(chars: nat, letters: nat, distance: nat)
      modifies this
      ensures distances == old(distances)[letters :=
                             Max(if letters in old(distances) then old(distances)[letters] else 0, distance)]
      ensures maxChars == Max(old(maxChars), chars + distance)
    {
      var known := if letters in distances then distances[letters] else 0;
      distances := distances[letters := Max(known, distance)];
      maxChars := Max(maxChars, chars + distance);
    }
  }

  lemma SummarisesOneMore(distances: map<nat, nat>, rows: seq<RowKind>, row: RowKind)
    requires Summarises(distances, rows)
    ensures !Indexed(row) ==> Summarises(distances, rows + [row])
    ensures Indexed(row) ==>
      Summarises(distances[|row.folded| :=
                   Max(if |row.folded| in distances then distances[|row.folded|] else 0, row.maxDistance)],
                 rows + [row])
  {
    var more := rows + [row];
    var letters := if Indexed(row) then |row.folded| else 0;
    forall length | length in distances
      ensures exists r ::
                0 <= r < |more| && Indexed(more[r]) && |more[r].folded| == length
                && more[r].maxDistance == distances[length]
    {
      var r :| 0 <= r < |rows| && Indexed(rows[r]) && |rows[r].folded| == length
        && rows[r].maxDistance == distances[length];
      assert more[r] == rows[r];
    }
    if Indexed(row) {
      var distances' := distances[letters :=
        Max(if letters in distances then distances[letters] else 0, row.maxDistance)];
      forall length | length in distances'
        ensures exists r ::
                  0 <= r < |more| && Indexed(more[r]) && |more[r].folded| == length
                  && more[r].maxDistance == distances'[length]
      {
        if length == letters && distances'[letters] == row.maxDistance {
          assert more[|rows|] == row;
        } else {
          assert length in distances && distances'[length] == distances[length];
        }
      }
    }
  }

  // ---------- the index ----------

  ghost function Bucket(index: map<string, seq<nat>>, v: string): seq<nat> {
    if v in index then index[v] else []
  }

  /** Bucket `v` lists the indexed rows that have `v` among their deletion variants. */
  ghost predicate Indexes(index: map<string, seq<nat>>, rows: seq<RowKind>) {
    forall v: string, r: nat :: Lists(index, v, r) <==>
      r < |rows| && Indexed(rows[r]) && Variant(v, rows[r].folded, rows[r].maxDistance)
  }

  ghost predicate Lists(index: map<string, seq<nat>>, v: string, r: nat) {
    r in Bucket(index, v)
  }

  ghost predicate Capped(rows: seq<RowKind>) {
    forall r :: 0 <= r < |rows| && rows[r].Fuzzy? ==> rows[r].maxDistance <= MAX_FUZZY_DISTANCE
  }

  ghost predicate AddedTo(index: map<string, seq<nat>>, index': map<string, seq<nat>>, variants: set<string>,
                          row: nat) {
    forall v: string :: Bucket(index', v) == (if v in variants then Bucket(index, v) + [row] else Bucket(index, v))
  }

  lemma IndexesOneMore(index: map<string, seq<nat>>, index': map<string, seq<nat>>, rows: seq<RowKind>, row: RowKind,
                       variants: set<string>)
    requires Indexes(index, rows) && AddedTo(index, index', variants, |rows|)
    requires forall v: string :: v in variants <==> Indexed(row) && Variant(v, row.folded, row.maxDistance)
    ensures Indexes(index', rows + [row])
  {
    var more := rows + [row];
    forall v: string, r: nat
      ensures Lists(index', v, r) <==> r < |more| && Indexed(more[r]) && Variant(v, more[r].folded, more[r].maxDistance)
    {
      assert Lists(index', v, r) <==> Lists(index, v, r) || (v in variants && r == |rows|);
    }
  }

  /** The lookup meets the row: they share a variant. */
  ghost predicate Shares(row: RowKind, folded: string, distance: nat) {
    Indexed(row) && exists v: string :: Variant(v, folded, distance) && Variant(v, row.folded, row.maxDistance)
  }

  /** With the distance the length summary chose, every matching row shares a variant. */
  lemma MatchShares(distances: map<nat, nat>, rows: seq<RowKind>, r: nat, folded: string, tokens: nat)
    requires Summarises(distances, rows) && Capped(rows)
    requires r < |rows| && Matches(rows[r], folded, tokens)
    ensures DistanceFor(distances, |folded|).Some?
    ensures Shares(rows[r], folded, DistanceFor(distances, |folded|).value)
  {
    var row := rows[r];
    LengthGap(folded, row.folded);
    assert Allows(distances, |row.folded|, |folded|);
    var v := CommonVariant(folded, row.folded);
    assert Variant(v, folded, DistanceFor(distances, |folded|).value);
    assert Variant(v, row.folded, row.maxDistance);
  }

  /** What a lookup depends on: `key.0` is measured, `key.1` counts tokens, `key.2` bounds deletions. */
  type FuzzyMemoKey = (string, nat, nat)

  /** `found` is what the index gives for the key, in row order. */
  ghost predicate IsLookup(rows: seq<RowKind>, key: FuzzyMemoKey, found: seq<nat>) {
    && Ascending(found)
    && forall r: nat :: r in found <==>
         r < |rows| && Shares(rows[r], key.0, key.2) && Matches(rows[r], key.0, key.1)
  }

  lemma LookupInRange(rows: seq<RowKind>, key: FuzzyMemoKey, found: seq<nat>)
    requires IsLookup(rows, key, found)
    ensures forall i :: 0 <= i < |found| ==> found[i] < |rows|
  {
    assert forall i :: 0 <= i < |found| ==> found[i] in found;
  }

  /** Looked up with the distance the length summary chose, the index loses and invents nothing. */
  lemma LookupIsLinearScan(distances: map<nat, nat>, rows: seq<RowKind>, folded: string, tokens: nat, distance: nat,
                           found: seq<nat>)
    requires Summarises(distances, rows) && Capped(rows)
    requires DistanceFor(distances, |folded|) == Some(distance)
    requires IsLookup(rows, (folded, tokens, distance), found)
    ensures found == LinearScan(rows, folded, tokens)
  {
    forall r: nat ensures r in found <==> r in LinearScan(rows, folded, tokens) {
      if r < |rows| && Matches(rows[r], folded, tokens) {
        MatchShares(distances, rows, r, folded, tokens);
      }
    }
    AscendingUnique(found, LinearScan(rows, folded, tokens));
  }

  /** A span length the summary rules out, or one beyond every pattern, matches no row at all. */
  lemma SkippedSpansMatchNothing(distances: map<nat, nat>, rows: seq<RowKind>, folded: string, tokens: nat)
    requires Summarises(distances, rows) && Capped(rows)
    requires DistanceFor(distances, |folded|).None? || |folded| > MAX_FUZZY_PATTERN_CHARS + MAX_FUZZY_DISTANCE
    ensures LinearScan(rows, folded, tokens) == []
  {
    if LinearScan(rows, folded, tokens) != [] {
      var r := LinearScan(rows, folded, tokens)[0];
      assert r in LinearScan(rows, folded, tokens);
      LengthGap(folded, rows[r].folded);
      MatchShares(distances, rows, r, folded, tokens);
      assert false;
    }
  }

  /** Rows whose short-entry case shape the span has, if they ask for one. */
  function Fitting(rows: seq<RowKind>, found: seq<nat>, fits: (CaseShape, nat) -> bool): (kept: seq<nat>)
    requires forall i :: 0 <= i < |found| ==> found[i] < |rows|
  {
    if found == [] then []
    else
      var last := found[|found| - 1];
      var drop := rows[last].Fuzzy? && rows[last].shortShape.Some?
        && !fits(rows[last].shortShape.value, |rows[last].folded|);
      Fitting(rows, found[..|found| - 1], fits) + (if drop then [] else [last])
  }

  /** Rows a lookup measures: those that share a variant with the span. */
  ghost function Sharing(rows: seq<RowKind>, folded: string, distance: nat): set<nat> {
    set r | 0 <= r < |rows| && Shares(rows[r], folded, distance)
  }

  /** The rows kept are, in order, those that ask for no shape or whose shape the span has. */
  lemma {:induction false} FittingMeans(rows: seq<RowKind>, found: seq<nat>, fits: (CaseShape, nat) -> bool, r: nat)
    requires (forall i :: 0 <= i < |found| ==> found[i] < |rows|) && Ascending(found)
    ensures Ascending(Fitting(rows, found, fits))
    ensures r in Fitting(rows, found, fits) <==>
      r in found && (rows[r].Fuzzy? && rows[r].shortShape.Some? ==> fits(rows[r].shortShape.value, |rows[r].folded|))
    decreases |found|
  {
    if found != [] {
      var early, last := found[..|found| - 1], found[|found| - 1];
      FittingMeans(rows, early, fits, r);
      assert r in found <==> r in early || r == last;
      forall i | 0 <= i < |Fitting(rows, early, fits)| ensures Fitting(rows, early, fits)[i] < last {
        FittingMeans(rows, early, fits, Fitting(rows, early, fits)[i]);
      }
    }
  }

  /** The memo of one document, and a count of bucket lookups and distance checks made so far. */
  class Guard {
    var fuzzyMemo: map<FuzzyMemoKey, seq<nat>>
    var fuzzySteps: nat

    ghost predicate Remembers(rows: seq<RowKind>)
      reads this`fuzzyMemo
    {
      forall key :: key in fuzzyMemo ==> IsLookup(rows, key, fuzzyMemo[key])
    }

    constructor ()
      ensures fuzzyMemo == map[] && fuzzySteps == 0
    {
      fuzzyMemo, fuzzySteps := map[], 0;
    }

    method CountFuzzyStep()
      modifies this`fuzzySteps
      ensures fuzzySteps == old(fuzzySteps) + 1
    {
      fuzzySteps := fuzzySteps + 1;
    }
  }

  class FuzzyIndex {
    var rows: seq<RowKind>
    var fuzzyDeletions: map<string, seq<nat>>
    const fuzzyShape: FuzzyShape

    ghost predicate Valid()
      reads this, fuzzyShape
    {
      && Capped(rows)
      && Indexes(fuzzyDeletions, rows)
      && Summarises(fuzzyShape.distances, rows)
    }

    constructor ()
      ensures Valid() && fresh(fuzzyShape) && rows == []
    {
      rows, fuzzyDeletions := [], map[];
      fuzzyShape := new FuzzyShape();
      new;
      assert forall v: string :: Bucket(fuzzyDeletions, v) == [];
    }

    method AddExact()
      requires Valid()
      modifies this
      ensures Valid() && rows == old(rows) + [Exact]
    {
      SummarisesOneMore(fuzzyShape.distances, rows, Exact);
      IndexesOneMore(fuzzyDeletions, fuzzyDeletions, rows, Exact, {});
      rows := rows + [Exact];
    }

    method AddFuzzy(term: FuzzyTerm, distance: Option<nat>)
      requires Valid()
      modifies this, fuzzyShape
      ensures Valid() && rows == old(rows) + [FuzzyRow(term, distance)]
      ensures forall folded, tokens: nat :: |old(rows)| in LinearScan(rows, folded, tokens)
                                       <==> Misspells(term, Asked(term, distance), folded, tokens)
      ensures rows[|old(rows)|].Fuzzy?
           && rows[|old(rows)|].shortShape == if |term.folded| < 6 then term.shape else None
      ensures var row := FuzzyRow(term, distance);
              var reach := if Indexed(row) then term.chars + row.maxDistance else 0;
              fuzzyShape.maxChars == Max(old(fuzzyShape.maxChars), reach)
    {
      var kind := FuzzyRow(term, distance);
      SummarisesOneMore(fuzzyShape.distances, rows, kind);
      if |kind.folded| <= MAX_FUZZY_PATTERN_CHARS {
        var row := |rows|;
        fuzzyShape.Add(term.chars, |kind.folded|, kind.maxDistance);
        var variants := DeletionVariants(kind.folded, kind.maxDistance);
        ListVariants(variants, row);
        IndexesOneMore(old(fuzzyDeletions), fuzzyDeletions, rows, kind, variants);
      } else {
        IndexesOneMore(fuzzyDeletions, fuzzyDeletions, rows, kind, {});
      }
      forall folded, tokens: nat
        ensures |rows| in LinearScan(rows + [kind], folded, tokens)
           <==> Misspells(term, Asked(term, distance), folded, tokens)
      {
        AddedRowFound(rows, term, distance, folded, tokens);
      }
      rows := rows + [kind];
    }

    method ListVariants(variants: set<string>, row: nat)
      modifies this`fuzzyDeletions
      ensures AddedTo(old(fuzzyDeletions), fuzzyDeletions, variants, row)
    {
      var todo := variants;
      while todo != {}
        invariant todo <= variants
        invariant AddedTo(old(fuzzyDeletions), fuzzyDeletions, variants - todo, row)
        decreases |todo|
      {
        var variant :| variant in todo;
        todo := todo - {variant};
        fuzzyDeletions := fuzzyDeletions[variant :=
          (if variant in fuzzyDeletions then fuzzyDeletions[variant] else []) + [row]];
      }
    }

    /** Every row listed for one of the variants, visited in no particular order; one lookup a variant. */
    method Candidates(guard: Guard, variants: set<string>) returns (candidates: seq<nat>)
      modifies guard`fuzzySteps
      ensures guard.fuzzySteps == old(guard.fuzzySteps) + |variants|
      ensures forall r: nat :: r in candidates <==> exists v :: v in variants && Lists(fuzzyDeletions, v, r)
    {
      candidates := [];
      var todo := variants;
      while todo != {}
        invariant todo <= variants
        invariant guard.fuzzySteps + |todo| == old(guard.fuzzySteps) + |variants|
        invariant forall r: nat :: r in candidates <==> exists v :: v in variants - todo && Lists(fuzzyDeletions, v, r)
        decreases |todo|
      {
        guard.CountFuzzyStep();
        var variant :| variant in todo;
        ghost var was, left := candidates, todo;
        todo := todo - {variant};
        candidates := candidates + (if variant in fuzzyDeletions then fuzzyDeletions[variant] else []);
        forall r: nat ensures r in candidates <==> exists v :: v in variants - todo && Lists(fuzzyDeletions, v, r) {
          assert r in candidates <==> r in was || Lists(fuzzyDeletions, variant, r);
          assert variants - todo == (variants - left) + {variant};
        }
      }
    }

    /** Keeps the candidates within their own distance, in order; one check a candidate. */
    method Retain(guard: Guard, candidates: seq<nat>, folded: string, tokens: nat) returns (found: seq<nat>)
      requires Ascending(candidates) && forall r :: r in candidates ==> r < |rows| && Indexed(rows[r])
      modifies guard`fuzzySteps
      ensures guard.fuzzySteps == old(guard.fuzzySteps) + |candidates|
      ensures Ascending(found)
      ensures forall r: nat :: r in found <==> r in candidates && Matches(rows[r], folded, tokens)
    {
      found := [];
      for k := 0 to |candidates|
        invariant Ascending(found)
        invariant guard.fuzzySteps == old(guard.fuzzySteps) + k
        invariant forall r: nat :: r in found <==>
          r in candidates[..k] && r < |rows| && Matches(rows[r], folded, tokens)
      {
        assert candidates[k] in candidates;
        assert candidates[..k + 1] == candidates[..k] + [candidates[k]];
        assert forall i :: 0 <= i < |found| ==> found[i] in found;
        var row := rows[candidates[k]];
        if row.Fuzzy? {
          guard.CountFuzzyStep();
          var measured := TwoRowDistance(folded, row.folded);
          if TokenCountFits(tokens, row.words) && measured <= row.maxDistance {
            found := found + [candidates[k]];
          }
        }
      }
      assert candidates[..|candidates|] == candidates;
    }

    /** Rows sharing a deletion variant, in row order, kept when within their distance. However many
        rows there are, the lookups are bounded by the span's length, and only rows that share a
        variant are measured, each once. */
    method FuzzyRowsFor(guard: Guard, folded: string, tokens: nat, distance: nat) returns (found: seq<nat>)
      requires Valid()
      modifies guard`fuzzySteps
      ensures IsLookup(rows, (folded, tokens, distance), found)
      ensures guard.fuzzySteps <=
        old(guard.fuzzySteps) + VariantCount(|folded|, distance) + |Sharing(rows, folded, distance)|
    {
      hide VariantCount;
      var variants := DeletionVariants(folded, distance);
      var candidates := Candidates(guard, variants);
      forall r: nat ensures r in candidates <==> r < |rows| && Shares(rows[r], folded, distance) {
      }
      var sorted := SortNats(candidates);
      DedupAscends(sorted);
      var distinct := Dedup(sorted);
      assert forall r: nat :: r in distinct <==> r in candidates;
      AscendingSize(distinct, Sharing(rows, folded, distance));
      found := Retain(guard, distinct, folded, tokens);
    }

    /** The rows of one re-checked span, looked up once per spelling. */
    method MemoisedRows(guard: Guard, folded: string, tokens: nat, distance: nat) returns (found: seq<nat>)
      requires Valid() && guard.Remembers(rows)
      modifies guard
      ensures guard.Remembers(rows)
      ensures IsLookup(rows, (folded, tokens, distance), found)
      ensures (folded, tokens, distance) in guard.fuzzyMemo
      ensures guard.fuzzySteps <= old(guard.fuzzySteps)
        + if (folded, tokens, distance) in old(guard.fuzzyMemo) then 0
          else VariantCount(|folded|, distance) + |Sharing(rows, folded, distance)|
    {
      var key := (folded, tokens, distance);
      if key in guard.fuzzyMemo {
        found := guard.fuzzyMemo[key];
      } else {
        found := FuzzyRowsFor(guard, folded, tokens, distance);
        guard.fuzzyMemo := guard.fuzzyMemo[key := found];
      }
    }

    /** Appends the fuzzy hits of one re-checked span. With the distance the length summary chose
        they are, whatever was looked up before, the rows a linear scan finds, less those whose
        proper-noun shape the span does not have. */
    method PushFuzzyRows(guard: Guard, folded: string, tokens: nat, distance: nat,
                         fits: (CaseShape, nat) -> bool, hits: seq<nat>) returns (hits': seq<nat>)
      requires Valid() && guard.Remembers(rows)
      modifies guard
      ensures guard.Remembers(rows)
      ensures DistanceFor(fuzzyShape.distances, |folded|) == Some(distance) ==>
        hits' == hits + Fitting(rows, LinearScan(rows, folded, tokens), fits)
      ensures distance <= MAX_FUZZY_DISTANCE ==>
        guard.fuzzySteps <= old(guard.fuzzySteps) + MOST_VARIANTS + |Sharing(rows, folded, distance)|
    {
      hide VariantCount;
      if fuzzyDeletions == map[] {
        EmptyIndexMatchesNothing(folded, tokens);
        return hits;
      }
      if |folded| > MAX_FUZZY_PATTERN_CHARS + MAX_FUZZY_DISTANCE {
        SkippedSpansMatchNothing(fuzzyShape.distances, rows, folded, tokens);
        return hits;
      }
      var found := MemoisedRows(guard, folded, tokens, distance);
      if distance <= MAX_FUZZY_DISTANCE { LookupsAreBounded(|folded|, distance); }
      if DistanceFor(fuzzyShape.distances, |folded|) == Some(distance) {
        LookupIsLinearScan(fuzzyShape.distances, rows, folded, tokens, distance, found);
      }
      LookupInRange(rows, (folded, tokens, distance), found);
      hits' := PushFitting(found, fits, hits);
    }

    method PushFitting(found: seq<nat>, fits: (CaseShape, nat) -> bool, hits: seq<nat>) returns (hits': seq<nat>)
      requires forall i :: 0 <= i < |found| ==> found[i] < |rows|
      ensures hits' == hits + Fitting(rows, found, fits)
    {
      hits' := hits;
      for k := 0 to |found|
        invariant hits' == hits + Fitting(rows, found[..k], fits)
      {
        assert found[..k + 1][..k] == found[..k];
        var row := rows[found[k]];
        if row.Fuzzy? && row.shortShape.Some? && !fits(row.shortShape.value, |row.folded|) {
          continue;
        }
        hits' := hits' + [found[k]];
      }
      assert found[..|found|] == found;
    }

    lemma EmptyIndexMatchesNothing(folded: string, tokens: nat)
      requires Valid() && fuzzyDeletions == map[]
      ensures LinearScan(rows, folded, tokens) == []
    {
      forall r: nat | r < |rows| ensures !Indexed(rows[r]) {
        var v := if rows[r].Fuzzy? then rows[r].folded else [];
        SubsequenceOfSelf(v);
        assert !Lists(fuzzyDeletions, v, r);
      }
      AscendingUnique(LinearScan(rows, folded, tokens), []);
    }
  }
}

/** Compact organisation aliases: an alias spelled from the initial letters of the name's words. */
module Acronym {
  import opened Subsequences

  const MIN_COMPACT_ORG_ALIAS_UNITS := 3
  const MAX_COMPACT_ORG_ALIAS_UNITS := 8

  /** Letter tables and lower casing. */
  datatype Letters = Letters(isAlphabetic: char -> bool, isUppercase: char -> bool, lower: string -> string)

  predicate SplitsWords(c: char) {
    c in " \t\n\r.,;:'\"()/-"
  }

  function Split(text: string): (parts: seq<string>)
    ensures |parts| > 0
  {
    if text == [] then [[]]
    else
      var rest := Split(text[1..]);
      if SplitsWords(text[0]) then [[]] + rest else [[text[0]] + rest[0]] + rest[1..]
  }

  function LongWords(parts: seq<string>): (words: seq<string>)
    ensures forall w :: w in words ==> |w| >= 2
  {
    if parts == [] then []
    else (if |parts[0]| >= 2 then [parts[0]] else []) + LongWords(parts[1..])
  }

  function SplitSimilarityWords(text: string): seq<string> {
    LongWords(Split(text))
  }

  lemma LongEnough(text: string)
    ensures forall w :: w in SplitSimilarityWords(text) ==> |w| >= 2
  {
  }

  // ---------- the words are the stretches between parting characters ----------

  ghost predicate Parts(c: char) {
    c in {' ', '\t', '\n', '\r', '.', ',', ';', ':', '\'', '"', '(', ')', '/', '-'}
  }

  /** A stretch of the text that no parting character interrupts and that cannot be made longer. */
  ghost predicate Stretch(text: string, from: nat, to: nat) {
    && from <= to <= |text| && (forall i :: from <= i < to ==> !Parts(text[i]))
    && (from == 0 || Parts(text[from - 1])) && (to == |text| || Parts(text[to]))
  }

  /** Where the parts of `text[i..]` lie. */
  ghost function PartsFrom(text: string, i: nat): (at: seq<(nat, nat)>)
    requires i <= |text|
    ensures |at| > 0 && at[0].0 == i <= at[0].1
    decreases |text| - i
  {
    if i == |text| then [(i, i)]
    else
      var rest := PartsFrom(text, i + 1);
      if Parts(text[i]) then [(i, i)] + rest else [(i, rest[0].1)] + rest[1..]
  }

  /** They follow each other with one parting character between, up to the end of the text. */
  ghost predicate Consecutive(text: string, at: seq<(nat, nat)>) {
    && (forall k :: 0 <= k < |at| ==>
          at[k].0 <= at[k].1 <= |text| && forall i :: at[k].0 <= i < at[k].1 ==> !Parts(text[i]))
    && (forall k :: 0 <= k < |at| - 1 ==> at[k].1 + 1 == at[k + 1].0 && Parts(text[at[k].1]))
    && (at != [] ==> at[|at| - 1].1 == |text|)
  }

  ghost predicate ShownAt(text: string, parts: seq<string>, at: seq<(nat, nat)>) {
    |parts| == |at| && forall k :: 0 <= k < |at| ==> at[k].0 <= at[k].1 <= |text| && parts[k] == text[at[k].0..at[k].1]
  }

  lemma SplitsAtParts(c: char)
    ensures SplitsWords(c) <==> Parts(c)
  {
  }

  lemma PutShown(text: string, word: string, p: (nat, nat), words: seq<string>, at: seq<(nat, nat)>)
    requires ShownAt(text, words, at) && p.0 <= p.1 <= |text| && word == text[p.0..p.1]
    ensures ShownAt(text, [word] + words, [p] + at)
  {
  }

  lemma RestShown(text: string, words: seq<string>, at: seq<(nat, nat)>)
    requires ShownAt(text, words, at) && at != []
    ensures ShownAt(text, words[1..], at[1..])
  {
  }

  lemma NewPart(text: string, i: nat, at: seq<(nat, nat)>)
    requires i < |text| && Parts(text[i]) && Consecutive(text, at) && at != [] && at[0].0 == i + 1
    ensures Consecutive(text, [(i, i)] + at)
  {
    hide Parts;
  }

  lemma LongerPart(text: string, i: nat, at: seq<(nat, nat)>)
    requires i < |text| && !Parts(text[i]) && Consecutive(text, at) && at != [] && at[0].0 == i + 1
    ensures Consecutive(text, [(i, at[0].1)] + at[1..])
  {
    hide Parts;
    var longer := [(i, at[0].1)] + at[1..];
    assert |longer| == |at| && forall k :: 0 < k < |at| ==> longer[k] == at[k];
  }

  lemma {:induction false} SplitStep(text: string, i: nat)
    requires i < |text|
    ensures var rest := Split(text[i + 1..]);
            Split(text[i..]) == if SplitsWords(text[i]) then [[]] + rest else [[text[i]] + rest[0]] + rest[1..]
  {
    hide SplitsWords;
    assert text[i..][1..] == text[i + 1..];
  }

  lemma {:induction false} SplitIsConsecutive(text: string, i: nat)
    requires i <= |text|
    ensures Consecutive(text, PartsFrom(text, i)) && ShownAt(text, Split(text[i..]), PartsFrom(text, i))
    decreases |text| - i
  {
    if i == |text| {
      assert text[i..] == [] == text[i..i];
    } else {
      SplitIsConsecutive(text, i + 1);
      SplitStep(text, i);
      SplitsAtParts(text[i]);
      OnePartMore(text, i, Split(text[i + 1..]), PartsFrom(text, i + 1));
      hide Consecutive, ShownAt, Split, SplitsWords, Parts;
    }
  }

  lemma OnePartMore(text: string, i: nat, parts: seq<string>, at: seq<(nat, nat)>)
    requires i < |text| && at != [] && at[0].0 == i + 1 && Consecutive(text, at) && ShownAt(text, parts, at)
    ensures |parts| > 0
    ensures Parts(text[i]) ==> Consecutive(text, [(i, i)] + at) && ShownAt(text, [[]] + parts, [(i, i)] + at)
    ensures !Parts(text[i]) ==> Consecutive(text, [(i, at[0].1)] + at[1..])
    ensures !Parts(text[i]) ==> ShownAt(text, [[text[i]] + parts[0]] + parts[1..], [(i, at[0].1)] + at[1..])
  {
    hide Consecutive, ShownAt, Parts;
    FirstShown(text, parts, at);
    if Parts(text[i]) {
      NewPart(text, i, at);
      PutShown(text, [], (i, i), parts, at);
    } else {
      LongerPart(text, i, at);
      assert text[i..at[0].1] == [text[i]] + text[i + 1..at[0].1];
      RestShown(text, parts, at);
      PutShown(text, [text[i]] + parts[0], (i, at[0].1), parts[1..], at[1..]);
    }
  }

  lemma FirstShown(text: string, words: seq<string>, at: seq<(nat, nat)>)
    requires ShownAt(text, words, at) && at != []
    ensures |words| == |at| && at[0].0 <= at[0].1 <= |text| && words[0] == text[at[0].0..at[0].1]
  {
  }

  /** Each maximal stretch from the first part on is one of the parts. */
  lemma {:induction false} StretchIsPart(text: string, at: seq<(nat, nat)>, from: nat, to: nat)
    requires Consecutive(text, at) && at != [] && at[0].0 <= from && Stretch(text, from, to)
    requires at[0].0 == 0 || Parts(text[at[0].0 - 1])
    ensures (from, to) in at
    decreases |at|
  {
    if from <= at[0].1 {
      assert from == at[0].0;
      assert to == at[0].1;
    } else {
      var rest := at[1..];
      assert forall k :: 0 <= k < |rest| ==> rest[k] == at[k + 1];
      StretchIsPart(text, rest, from, to);
    }
  }

  lemma PartIsStretch(text: string, at: seq<(nat, nat)>, k: nat)
    requires Consecutive(text, at) && k < |at| && at[0].0 == 0
    ensures Stretch(text, at[k].0, at[k].1)
  {
    if k > 0 { assert at[k - 1].1 + 1 == at[k].0; }
  }

  ghost function LongOnes(at: seq<(nat, nat)>): seq<(nat, nat)> {
    if at == [] then [] else (if at[0].0 + 2 <= at[0].1 then [at[0]] else []) + LongOnes(at[1..])
  }

  ghost predicate Ahead(at: seq<(nat, nat)>) {
    forall j, k :: 0 <= j < k < |at| ==> at[j].1 < at[k].0
  }

  lemma {:induction false} LongOnesAre(at: seq<(nat, nat)>, p: (nat, nat))
    ensures p in LongOnes(at) <==> p in at && p.0 + 2 <= p.1
    decreases |at|
  {
    if at != [] {
      LongOnesAre(at[1..], p);
      assert p in at <==> p == at[0] || p in at[1..];
    }
  }

  lemma {:induction false} LongOnesAhead(at: seq<(nat, nat)>)
    requires Ahead(at)
    ensures Ahead(LongOnes(at))
    decreases |at|
  {
    if at != [] {
      var rest := at[1..];
      assert forall k :: 0 <= k < |rest| ==> rest[k] == at[k + 1];
      LongOnesAhead(rest);
      forall k | 0 <= k < |LongOnes(rest)| ensures at[0].1 < LongOnes(rest)[k].0 {
        LongOnesAre(rest, LongOnes(rest)[k]);
        var j :| 0 <= j < |rest| && rest[j] == LongOnes(rest)[k];
        assert at[j + 1] == rest[j];
      }
      PutAhead(at[0], LongOnes(rest));
    }
  }

  lemma PutAhead(p: (nat, nat), at: seq<(nat, nat)>)
    requires Ahead(at) && forall k :: 0 <= k < |at| ==> p.1 < at[k].0
    ensures Ahead([p] + at)
  {
  }

  lemma {:induction false} LongOnesShown(text: string, parts: seq<string>, at: seq<(nat, nat)>)
    requires ShownAt(text, parts, at)
    ensures ShownAt(text, LongWords(parts), LongOnes(at))
    decreases |at|
  {
    if at != [] {
      FirstShown(text, parts, at);
      RestShown(text, parts, at);
      LongOnesShown(text, parts[1..], at[1..]);
      hide ShownAt;
      if at[0].0 + 2 <= at[0].1 { PutShown(text, parts[0], at[0], LongWords(parts[1..]), LongOnes(at[1..])); }
    }
  }

  lemma {:induction false} ConsecutiveAhead(text: string, at: seq<(nat, nat)>)
    requires Consecutive(text, at)
    ensures Ahead(at)
    decreases |at|
  {
    if at != [] {
      var early := at[..|at| - 1];
      if early != [] {
        assert at[|at| - 2].1 + 1 == at[|at| - 1].0;
        forall j | 0 <= j < |early| ensures at[j].1 < at[|at| - 1].0 { EndsRise(text, at, j, |at| - 2); }
        forall j, k | 0 <= j < k < |early| ensures at[j].1 < at[k].0 { EndsRise(text, at, j, k - 1); }
      }
    }
  }

  lemma {:induction false} EndsRise(text: string, at: seq<(nat, nat)>, j: nat, k: nat)
    requires Consecutive(text, at) && j <= k < |at|
    ensures at[j].1 <= at[k].1
    decreases k - j
  {
    if j < k {
      EndsRise(text, at, j, k - 1);
      assert at[k - 1].1 + 1 == at[k].0;
    }
  }

  /** The words are, in text order, all the maximal stretches of at least two characters. */
  lemma WordsAreStretches(text: string) returns (at: seq<(nat, nat)>)
    ensures |at| == |SplitSimilarityWords(text)|
    ensures forall k :: 0 <= k < |at| ==>
      && Stretch(text, at[k].0, at[k].1) && SplitSimilarityWords(text)[k] == text[at[k].0..at[k].1]
    ensures forall j, k :: 0 <= j < k < |at| ==> at[j].1 < at[k].0
    ensures forall from: nat, to: nat :: (from, to) in at <==> Stretch(text, from, to) && from + 2 <= to
  {
    hide PartsFrom, Split, LongWords, LongOnes, Parts;
    var parts := PartsFrom(text, 0);
    SplitIsConsecutive(text, 0);
    assert text[0..] == text;
    ConsecutiveAhead(text, parts);
    LongOnesAhead(parts);
    LongOnesShown(text, Split(text), parts);
    at := LongOnes(parts);
    forall from: nat, to: nat ensures (from, to) in at <==> Stretch(text, from, to) && from + 2 <= to {
      LongOnesAre(parts, (from, to));
      if (from, to) in parts {
        var k :| 0 <= k < |parts| && parts[k] == (from, to);
        PartIsStretch(text, parts, k);
      }
      if Stretch(text, from, to) { StretchIsPart(text, parts, from, to); }
    }
    forall k | 0 <= k < |at| ensures Stretch(text, at[k].0, at[k].1) { assert (at[k].0, at[k].1) in at; }
  }

  // ---------- the question the state loop answers ----------

  /** The piece starts with the word's first letter and goes on as a subsequence of the rest. */
  predicate IsPiece(piece: string, word: string) {
    piece != [] && word != [] && piece[0] == word[0] && Subsequence(piece[1..], word[1..])
  }

  /** `alias[from..to]` is taken from word number `word`. */
  datatype Piece = Piece(word: nat, from: nat, to: nat)

  ghost predicate PieceFits(alias: string, words: seq<string>, p: Piece) {
    p.word < |words| && p.from <= p.to <= |alias| && IsPiece(alias[p.from..p.to], words[p.word])
  }

  /** The pieces are consecutive, cover `alias[..consumed]`, and are taken from words in order. */
  ghost predicate IsCut(alias: string, words: seq<string>, cut: seq<Piece>, consumed: nat) {
    && (forall i :: 0 <= i < |cut| ==> PieceFits(alias, words, cut[i]))
    && (forall i :: 0 < i < |cut| ==> cut[i].from == cut[i - 1].to && cut[i - 1].word < cut[i].word)
    && (if cut == [] then consumed == 0 else cut[0].from == 0 && cut[|cut| - 1].to == consumed)
  }

  ghost predicate Reachable(alias: string, words: seq<string>, consumed: nat, count: nat) {
    exists cut :: IsCut(alias, words, cut, consumed) && |cut| == count
  }

  // ---------- one word ----------

  /** How far into the alias a word reaches from `consumed`. */
  ghost predicate Extends(alias: string, word: string, consumed: nat, to: nat) {
    consumed <= to <= |alias| && IsPiece(alias[consumed..to], word)
  }

  /** From `consumed`, the word reaches each of the next `matched` ends and no other. */
  ghost predicate ReachesUpTo(alias: string, word: string, consumed: nat, matched: nat) {
    forall to: nat :: Extends(alias, word, consumed, to) <==> consumed < to <= consumed + matched
  }

  /** Matching greedily loses nothing: what one more letter makes possible is one more match. */
  lemma GreedyStep(alias: string, word: string, consumed: nat, matched: nat, i: nat)
    requires 0 < i < |word| && 0 < matched && consumed + matched <= |alias|
    requires ReachesUpTo(alias, word[..i], consumed, matched)
    ensures ReachesUpTo(alias, word[..i + 1], consumed,
              if consumed + matched < |alias| && alias[consumed + matched] == word[i] then matched + 1 else matched)
  {
    var next := consumed + matched;
    var matched' := if next < |alias| && alias[next] == word[i] then matched + 1 else matched;
    var longer := word[..i + 1];
    assert longer[1..] == word[..i][1..] + [word[i]];
    assert Init(longer[1..]) == word[..i][1..];
    assert Extends(alias, word[..i], consumed, consumed + 1);
    forall to: nat ensures Extends(alias, longer, consumed, to) <==> consumed < to <= consumed + matched' {
      if consumed < to <= |alias| {
        var s := alias[consumed..to][1..];
        assert Extends(alias, word[..i], consumed, to) <==> Subsequence(s, word[..i][1..]);
        if s != [] {
          assert Init(s) == alias[consumed..to - 1][1..];
          assert Last(s) == alias[to - 1];
          assert Extends(alias, word[..i], consumed, to - 1) <==> Subsequence(Init(s), word[..i][1..]);
        }
      }
    }
  }

  /** The states one word adds from one state, found in a single pass over its letters. */
  method ExtendState(alias: string, word: string, consumed: nat, count: nat,
                     known: set<(nat, nat)>) returns (next: set<(nat, nat)>)
    requires |word| >= 1 && consumed <= |alias|
    ensures forall s: (nat, nat) :: s in next <==>
      s in known || (s.1 == count + 1 && Extends(alias, word, consumed, s.0))
  {
    next := known;
    if consumed >= |alias| || word[0] != alias[consumed] {
      return;
    }
    var matched := 1;
    next := next + {(consumed + matched, count + 1)};
    for i := 1 to |word|
      invariant 0 < matched && consumed + matched <= |alias|
      invariant ReachesUpTo(alias, word[..i], consumed, matched)
      invariant forall s: (nat, nat) :: s in next <==>
        s in known || (s.1 == count + 1 && consumed < s.0 <= consumed + matched)
    {
      GreedyStep(alias, word, consumed, matched, i);
      if !(consumed + matched < |alias| && alias[consumed + matched] == word[i]) {
        continue;
      }
      matched := matched + 1;
      next := next + {(consumed + matched, count + 1)};
    }
    assert word[..|word|] == word;
  }

  /** Every state together with every state the word makes of it. */
  method ExtendStates(alias: string, word: string, states: set<(nat, nat)>) returns (next: set<(nat, nat)>)
    requires |word| >= 1 && forall s :: s in states ==> s.0 <= |alias|
    ensures forall s: (nat, nat) :: s in next <==>
      s in states || exists t :: t in states && s.1 == t.1 + 1 && Extends(alias, word, t.0, s.0)
  {
    next := states;
    var todo := states;
    while todo != {}
      invariant todo <= states
      invariant forall s: (nat, nat) :: s in next <==>
        s in states || exists t :: t in states - todo && s.1 == t.1 + 1 && Extends(alias, word, t.0, s.0)
      decreases |todo|
    {
      var t :| t in todo;
      todo := todo - {t};
      next := ExtendState(alias, word, t.0, t.1, next);
    }
  }

  // ---------- all words ----------

  lemma CutInBounds(alias: string, words: seq<string>, cut: seq<Piece>, consumed: nat)
    requires IsCut(alias, words, cut, consumed)
    ensures consumed <= |alias|
  {
  }

  lemma {:induction false} CutWordsBelow(alias: string, words: seq<string>, cut: seq<Piece>, consumed: nat, i: nat)
    requires IsCut(alias, words, cut, consumed) && i < |cut|
    ensures forall j :: 0 <= j < i ==> cut[j].word < cut[i].word
  {
    if i > 0 { CutWordsBelow(alias, words, cut, consumed, i - 1); }
  }

  lemma CutKept(alias: string, words: seq<string>, word: string, cut: seq<Piece>, consumed: nat)
    requires IsCut(alias, words, cut, consumed)
    ensures IsCut(alias, words + [word], cut, consumed)
  {
  }

  lemma FitsStill(alias: string, words: seq<string>, word: string, p: Piece)
    requires PieceFits(alias, words, p)
    ensures PieceFits(alias, words + [word], p)
  {
  }

  lemma FitsLast(alias: string, words: seq<string>, word: string, c: nat, consumed: nat)
    requires Extends(alias, word, c, consumed)
    ensures PieceFits(alias, words + [word], Piece(|words|, c, consumed))
  {
  }

  lemma CutLonger(alias: string, words: seq<string>, word: string, cut: seq<Piece>, c: nat, consumed: nat)
    requires IsCut(alias, words, cut, c) && Extends(alias, word, c, consumed)
    ensures IsCut(alias, words + [word], cut + [Piece(|words|, c, consumed)], consumed)
  {
    FitsLast(alias, words, word, c, consumed);
    forall i | 0 <= i < |cut| ensures PieceFits(alias, words + [word], cut[i]) && cut[i].word < |words| {
      FitsStill(alias, words, word, cut[i]);
    }
    hide PieceFits, Extends;
  }

  /** One more word: a cut either leaves it unused or takes its last piece from it. */
  lemma OneWordMore(alias: string, words: seq<string>, word: string, consumed: nat, count: nat)
    ensures Reachable(alias, words + [word], consumed, count) <==>
      || Reachable(alias, words, consumed, count)
      || exists c: nat :: count > 0 && Reachable(alias, words, c, count - 1) && Extends(alias, word, c, consumed)
  {
    hide IsCut, Extends;
    if Reachable(alias, words, consumed, count) {
      var cut :| IsCut(alias, words, cut, consumed) && |cut| == count;
      CutKept(alias, words, word, cut, consumed);
    }
    if exists c: nat :: count > 0 && Reachable(alias, words, c, count - 1) && Extends(alias, word, c, consumed) {
      var c: nat :| count > 0 && Reachable(alias, words, c, count - 1) && Extends(alias, word, c, consumed);
      var cut :| IsCut(alias, words, cut, c) && |cut| == count - 1;
      CutLonger(alias, words, word, cut, c, consumed);
      assert |cut + [Piece(|words|, c, consumed)]| == count;
    }
    if Reachable(alias, words + [word], consumed, count) {
      var cut :| IsCut(alias, words + [word], cut, consumed) && |cut| == count;
      SplitCut(alias, words, word, cut, consumed);
    }
  }

  lemma SplitCut(alias: string, words: seq<string>, word: string, cut: seq<Piece>, consumed: nat)
    requires IsCut(alias, words + [word], cut, consumed)
    ensures Reachable(alias, words, consumed, |cut|)
      || exists c: nat :: |cut| > 0 && Reachable(alias, words, c, |cut| - 1) && Extends(alias, word, c, consumed)
  {
    var n := |cut| - 1;
    if cut == [] {
      assert IsCut(alias, words, cut, consumed);
    } else {
      CutWordsBelow(alias, words + [word], cut, consumed, n);
      assert PieceFits(alias, words + [word], cut[n]);
      if cut[n].word < |words| {
        forall i | 0 <= i < |cut|
          ensures PieceFits(alias, words, cut[i])
        {
          assert PieceFits(alias, words + [word], cut[i]);
        }
        assert IsCut(alias, words, cut, consumed);
      } else {
        var before, c := cut[..n], cut[n].from;
        forall i | 0 <= i < n
          ensures PieceFits(alias, words, before[i])
        {
          assert PieceFits(alias, words + [word], cut[i]);
        }
        assert IsCut(alias, words, before, c);
        assert Extends(alias, word, c, consumed);
      }
    }
  }

  /** The alias can be cut into at least two consecutive pieces, taken from words in order. */
  ghost predicate CutsIntoWords(alias: string, words: seq<string>) {
    exists cut :: IsCut(alias, words, cut, |alias|) && |cut| >= 2
  }

  method HasCompactOrganizationSimilarity(letters: Letters, alias: string, entityText: string) returns (similar: bool)
    ensures similar <==>
      && MIN_COMPACT_ORG_ALIAS_UNITS <= |alias| <= MAX_COMPACT_ORG_ALIAS_UNITS
      && (forall c :: c in alias ==> letters.isAlphabetic(c) && letters.isUppercase(c))
      && CutsIntoWords(letters.lower(alias), SplitSimilarityWords(letters.lower(entityText)))
  {
    hide CutsIntoWords, SplitSimilarityWords, Reachable;
    if !(MIN_COMPACT_ORG_ALIAS_UNITS <= |alias| <= MAX_COMPACT_ORG_ALIAS_UNITS)
       || exists c | c in alias :: !(letters.isAlphabetic(c) && letters.isUppercase(c))
    {
      return false;
    }
    var aliasChars := letters.lower(alias);
    var entityWords := SplitSimilarityWords(letters.lower(entityText));
    LongEnough(letters.lower(entityText));
    var states := AllStates(aliasChars, entityWords);
    StatesAnswer(aliasChars, entityWords, states);
    similar := exists s | s in states :: s.0 == |aliasChars| && s.1 >= 2;
  }

  lemma StatesAnswer(alias: string, words: seq<string>, states: set<(nat, nat)>)
    requires forall s: (nat, nat) :: s in states <==> Reachable(alias, words, s.0, s.1)
    ensures (exists s :: s in states && s.0 == |alias| && s.1 >= 2) <==> CutsIntoWords(alias, words)
  {
    hide IsCut;
    if CutsIntoWords(alias, words) {
      var cut :| IsCut(alias, words, cut, |alias|) && |cut| >= 2;
      assert (|alias|, |cut|) in states;
    }
  }

  /** The reachable states after every word. */
  method AllStates(alias: string, words: seq<string>) returns (states: set<(nat, nat)>)
    requires forall w :: w in words ==> |w| >= 2
    ensures forall s: (nat, nat) :: s in states <==> Reachable(alias, words, s.0, s.1)
  {
    hide IsCut, Extends;
    states := {(0, 0)};
    NoWords(alias);
    for k := 0 to |words|
      invariant forall s: (nat, nat) :: s in states <==> Reachable(alias, words[..k], s.0, s.1)
    {
      assert words[..k + 1] == words[..k] + [words[k]];
      forall s | s in states ensures s.0 <= |alias| {
        var cut :| IsCut(alias, words[..k], cut, s.0) && |cut| == s.1;
        CutInBounds(alias, words[..k], cut, s.0);
      }
      ghost var before := states;
      states := ExtendStates(alias, words[k], states);
      forall s: (nat, nat) ensures s in states <==> Reachable(alias, words[..k + 1], s.0, s.1) {
        OneWordMore(alias, words[..k], words[k], s.0, s.1);
        if exists c: nat :: s.1 > 0 && Reachable(alias, words[..k], c, s.1 - 1) && Extends(alias, words[k], c, s.0) {
          var c: nat :| s.1 > 0 && Reachable(alias, words[..k], c, s.1 - 1) && Extends(alias, words[k], c, s.0);
          assert (c, s.1 - 1) in before;
        }
      }
    }
    assert words[..|words|] == words;
  }

  lemma NoWords(alias: string)
    ensures forall s: (nat, nat) :: s == (0, 0) <==> Reachable(alias, [], s.0, s.1)
  {
  }
}

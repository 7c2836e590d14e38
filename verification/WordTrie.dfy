/**
  The word-sequence trie of the gazetteer. The trie is kept in step with the plain facts its
  entries give rise to, and reports exactly the spans those facts allow.
 */
module WordTrie {
  import opened Common
  import opened GapRules

  /** Word tables: folding, declined forms, digits, the separator marks, and how an entry spells its words. */
  datatype Language = Language(
    fold: string -> string,
    declined: string -> set<string>,
    isNumeric: char -> bool,
    marks: Marks,
    spelling: seq<string> -> Option<seq<string>>)

  /** What a token must fold to in order to be read as `word`. */
  function WordForms(lang: Language, word: string): set<string> {
    {lang.fold(word)} + lang.declined(word)
  }

  datatype EdgePunctuation = EdgePunctuation(leading: string, trailing: string)

  datatype Terminal = Terminal(labelText: string, edges: EdgePunctuation, spelling: Option<seq<string>>)

  datatype Entry = Entry(words: seq<string>, gaps: seq<GapRule>, labelText: string, edges: EdgePunctuation)

  datatype Token = Token(start: nat, end: nat)

  datatype Document = Document(text: string, tokens: seq<Token>)

  datatype Hit = Hit(start: nat, end: nat, labelText: string, spelling: Option<seq<string>>)

  function TerminalOf(lang: Language, e: Entry): Terminal {
    Terminal(e.labelText, e.edges, lang.spelling(e.words))
  }

  // ---------- reading the text ----------

  function Slice(text: string, start: nat, end: nat): string {
    if start <= end <= |text| then text[start..end] else []
  }

  predicate SameMarks(m: Marks, text: string, at: nat, marks: string) {
    at + |marks| <= |text| && forall i :: 0 <= i < |marks| ==> m.canonical(text[at + i]) == m.canonical(marks[i])
  }

  /** `start..end` with the marks on either side of it taken in, if they are the wanted ones. */
  function Around(m: Marks, edges: EdgePunctuation, text: string, start: nat, end: nat): Option<(nat, nat)> {
    if start <= |text| && |edges.leading| <= start && SameMarks(m, text, start - |edges.leading|, edges.leading)
       && SameMarks(m, text, end, edges.trailing)
    then Some((start - |edges.leading|, end + |edges.trailing|))
    else None
  }

  function HitOf(m: Marks, text: string, t: Terminal, start: nat, end: nat): Option<Hit> {
    match Around(m, t.edges, text, start, end)
    case Some((from, to)) => Some(Hit(from, to, t.labelText, t.spelling))
    case None => None
  }

  function LeadingDigits(lang: Language, word: string): nat {
    if word != [] && lang.isNumeric(word[0]) then 1 + LeadingDigits(lang, word[1..]) else 0
  }

  function TrailingDigits(lang: Language, word: string): nat {
    if word != [] && lang.isNumeric(word[|word| - 1]) then 1 + TrailingDigits(lang, word[..|word| - 1]) else 0
  }

  /** The readings of a token: as it stands, and without the numbers at its ends if both kinds occur. */
  function Spellings(lang: Language, text: string, token: Token): seq<Token> {
    var word := Slice(text, token.start, token.end);
    var before, after := LeadingDigits(lang, word), TrailingDigits(lang, word);
    if before + after < |word| && before + after > 0
    then [token, Token(token.start + before, token.start + |word| - after)]
    else [token]
  }

  // ---------- the facts entries give rise to ----------

  type Path = seq<string>

  /** Known word paths, the words a folded form may spell, the longest separator allowed before the
      last word of a path by key, and the entries ending at a path. */
  datatype Facts = Facts(
    paths: set<Path>,
    spells: set<(string, string)>,
    allowed: map<(Path, string), nat>,
    ends: map<Path, seq<Terminal>>)

  const NoFacts := Facts({[]}, {}, map[], map[])

  function Raise(allowed: map<(Path, string), nat>, key: (Path, string), maxChars: nat): map<(Path, string), nat> {
    allowed[key := Max(if key in allowed then allowed[key] else 0, maxChars)]
  }

  function RaiseAll(allowed: map<(Path, string), nat>, path: Path, keys: seq<string>,
                    maxChars: nat): map<(Path, string), nat> {
    if keys == [] then allowed
    else Raise(RaiseAll(allowed, path, keys[..|keys| - 1], maxChars), (path, keys[|keys| - 1]), maxChars)
  }

  function SpellWord(lang: Language, f: Facts, word: string): Facts {
    f.(spells := f.spells + set form | form in WordForms(lang, word) :: (form, lang.fold(word)))
  }

  /** One more word on a path, after a separator the gap allows. */
  function StepFacts(lang: Language, f: Facts, path: Path, word: string, gap: Option<GapRule>): Facts {
    var path' := path + [lang.fold(word)];
    var g := SpellWord(lang, f, word);
    g.(paths := g.paths + {path'},
       allowed := match gap
                  case None => g.allowed
                  case Some(rule) => RaiseAll(g.allowed, path', Keys(rule), rule.maxChars))
  }

  function Folded(lang: Language, words: seq<string>): (path: Path)
    ensures |path| == |words| && forall k :: 0 <= k < |path| ==> path[k] == lang.fold(words[k])
  {
    seq(|words|, i requires 0 <= i < |words| => lang.fold(words[i]))
  }

  /** The separator rule before word `k` of an entry. */
  function GapBefore(e: Entry, k: nat): Option<GapRule> {
    if 0 < k <= |e.gaps| then Some(e.gaps[k - 1]) else None
  }

  function WordFacts(lang: Language, f: Facts, e: Entry, n: nat): Facts
    requires n <= |e.words|
  {
    if n == 0 then f
    else StepFacts(lang, WordFacts(lang, f, e, n - 1), Folded(lang, e.words[..n - 1]), e.words[n - 1],
      GapBefore(e, n - 1))
  }

  function TerminalsAt(f: Facts, path: Path): seq<Terminal> {
    if path in f.ends then f.ends[path] else []
  }

  function AddTerminal(ts: seq<Terminal>, t: Terminal): seq<Terminal> {
    if t in ts then ts else ts + [t]
  }

  function EntryFacts(lang: Language, f: Facts, e: Entry): Facts {
    var g := WordFacts(lang, f, e, |e.words|);
    var path := Folded(lang, e.words);
    g.(ends := g.ends[path := AddTerminal(TerminalsAt(g, path), TerminalOf(lang, e))])
  }

  function AllFacts(lang: Language, entries: seq<Entry>): Facts {
    if entries == [] then NoFacts
    else EntryFacts(lang, AllFacts(lang, entries[..|entries| - 1]), entries[|entries| - 1])
  }

  // ---------- the spans the facts allow ----------

  /** An entry ends at `path` and its edge punctuation surrounds the span. */
  ghost predicate Ends(lang: Language, f: Facts, doc: Document, path: Path, start: nat, end: nat, h: Hit) {
    exists t :: t in TerminalsAt(f, path) && HitOf(lang.marks, doc.text, t, start, end) == Some(h)
  }

  function FormOf(lang: Language, doc: Document, s: Token): string {
    lang.fold(Slice(doc.text, s.start, s.end))
  }

  /** The separator the text shows between two offsets. */
  function SeparatorAt(lang: Language, doc: Document, end: nat, start: nat): Option<(string, nat)> {
    if end <= start <= |doc.text| then ObservedSeparator(lang.marks, doc.text[end..start]) else None
  }

  predicate Allows(f: Facts, path: Path, separator: Option<(string, nat)>) {
    separator.Some? && (path, separator.value.0) in f.allowed
      && separator.value.1 <= f.allowed[(path, separator.value.0)]
  }

  /** `word` may follow `path`: the spelled token reads as it, after a separator it allows. */
  ghost predicate Follows(lang: Language, f: Facts, doc: Document, path: Path, end: nat, s: Token, word: string) {
    && (FormOf(lang, doc, s), word) in f.spells
    && Allows(f, path + [word], SeparatorAt(lang, doc, end, s.start))
  }

  /** Reading on from `path`, token by token, reaches the hit. */
  ghost predicate Reaches(lang: Language, f: Facts, doc: Document, path: Path, start: nat, end: nat, next: nat, h: Hit)
    decreases |doc.tokens| - next
  {
    || Ends(lang, f, doc, path, start, end, h)
    || (next < |doc.tokens| && exists s, word ::
          && s in Spellings(lang, doc.text, doc.tokens[next])
          && Follows(lang, f, doc, path, end, s, word)
          && Reaches(lang, f, doc, path + [word], start, s.end, next + 1, h))
  }

  /** Some token opens a known path from which the hit is reached. */
  ghost predicate Found(lang: Language, f: Facts, doc: Document, h: Hit) {
    exists i, s, word ::
      && 0 <= i < |doc.tokens|
      && s in Spellings(lang, doc.text, doc.tokens[i])
      && Opens(lang, f, doc, i, s, word, h)
  }

  ghost predicate Opens(lang: Language, f: Facts, doc: Document, i: nat, s: Token, word: string, h: Hit) {
    && (FormOf(lang, doc, s), word) in f.spells && [word] in f.paths
    && Reaches(lang, f, doc, [word], s.start, s.end, i + 1, h)
  }

  // ---------- what the facts of a list of entries mean ----------

  /** `form` is a spelling of the `k`-th word of `e`, and `word` is how that word folds. */
  ghost predicate SpelledIn(lang: Language, e: Entry, k: nat, form: string, word: string) {
    && k < |e.words| && word == lang.fold(e.words[k])
    && (form == lang.fold(e.words[k]) || form in lang.declined(e.words[k]))
  }

  /** The rule before word `k` of `e`, on this path, accepts the separator. */
  ghost predicate AcceptedIn(lang: Language, e: Entry, k: nat, path: Path, key: string, chars: nat) {
    && 0 < k < |e.words| && k <= |e.gaps| && Folded(lang, e.words[..k + 1]) == path
    && key in Keys(e.gaps[k - 1]) && chars <= e.gaps[k - 1].maxChars
  }

  ghost predicate Accepts(f: Facts, path: Path, key: string, chars: nat) {
    (path, key) in f.allowed && chars <= f.allowed[(path, key)]
  }

  lemma {:induction false} RaiseAllMeans(allowed: map<(Path, string), nat>, path: Path, keys: seq<string>,
                                         maxChars: nat,
                                         p: Path, key: string, chars: nat)
    ensures var raised := RaiseAll(allowed, path, keys, maxChars);
            ((p, key) in raised && chars <= raised[(p, key)]) <==>
              || ((p, key) in allowed && chars <= allowed[(p, key)])
              || (p == path && key in keys && chars <= maxChars)
  {
    if keys != [] {
      var n := |keys| - 1;
      RaiseAllMeans(allowed, path, keys[..n], maxChars, p, key, chars);
      assert key in keys <==> key in keys[..n] || key == keys[n];
      if key == keys[n] && p == path {
        RaiseAllMeans(allowed, path, keys[..n], maxChars, p, key, 0);
      }
    }
  }

  lemma FormsMean(lang: Language, word: string, form: string)
    ensures form in WordForms(lang, word) <==> form == lang.fold(word) || form in lang.declined(word)
  {
  }

  lemma {:induction false} WordFactsMean(lang: Language, f: Facts, e: Entry, n: nat, form: string, word: string,
                                         path: Path,
                                         key: string, chars: nat)
    requires n <= |e.words|
    ensures var g := WordFacts(lang, f, e, n);
            && ((form, word) in g.spells <==>
                 (form, word) in f.spells || exists k: nat :: k < n && SpelledIn(lang, e, k, form, word))
            && (path in g.paths <==>
                 path in f.paths || exists k: nat :: 0 < k <= n && path == Folded(lang, e.words[..k]))
            && (Accepts(g, path, key, chars) <==>
                  Accepts(f, path, key, chars) || exists k: nat :: k < n && AcceptedIn(lang, e, k, path, key, chars))
            && g.ends == f.ends
  {
    hide Keys, WordForms, StepFacts, Accepts, SpelledIn, AcceptedIn;
    if n > 0 {
      WordFactsMean(lang, f, e, n - 1, form, word, path, key, chars);
      var before := WordFacts(lang, f, e, n - 1);
      var gap := GapBefore(e, n - 1);
      StepMeans(lang, before, Folded(lang, e.words[..n - 1]), e.words[n - 1], gap, form, word, path, key, chars);
      SpelledAt(lang, e, n - 1, form, word);
      AcceptedAt(lang, e, n - 1, path, key, chars);
      assert Folded(lang, e.words[..n]) == Folded(lang, e.words[..n - 1]) + [lang.fold(e.words[n - 1])];
    }
  }

  lemma SpelledAt(lang: Language, e: Entry, k: nat, form: string, word: string)
    requires k < |e.words|
    ensures SpelledIn(lang, e, k, form, word) <==>
      form in WordForms(lang, e.words[k]) && word == lang.fold(e.words[k])
  {
    FormsMean(lang, e.words[k], form);
  }

  lemma AcceptedAt(lang: Language, e: Entry, k: nat, path: Path, key: string, chars: nat)
    requires k < |e.words|
    ensures var gap := GapBefore(e, k);
            AcceptedIn(lang, e, k, path, key, chars) <==>
              gap.Some? && path == Folded(lang, e.words[..k + 1]) && key in Keys(gap.value)
              && chars <= gap.value.maxChars
  {
    hide Keys, Folded;
  }

  lemma StepMeans(lang: Language, f: Facts, path0: Path, word0: string, gap: Option<GapRule>, form: string,
                  word: string, path: Path,
                  key: string, chars: nat)
    ensures var g := StepFacts(lang, f, path0, word0, gap);
            var path' := path0 + [lang.fold(word0)];
            && ((form, word) in g.spells <==>
                 (form, word) in f.spells || (form in WordForms(lang, word0) && word == lang.fold(word0)))
            && (path in g.paths <==> path in f.paths || path == path')
            && (Accepts(g, path, key, chars) <==>
                  Accepts(f, path, key, chars)
                  || (gap.Some? && path == path' && key in Keys(gap.value) && chars <= gap.value.maxChars))
            && g.ends == f.ends
  {
    hide Keys, WordForms;
    if gap.Some? {
      RaiseAllMeans(f.allowed, path0 + [lang.fold(word0)], Keys(gap.value), gap.value.maxChars, path, key, chars);
    }
  }

  // ---------- facts of a list of entries ----------

  ghost predicate SpelledBy(lang: Language, entries: seq<Entry>, form: string, word: string) {
    exists e, k: nat :: e in entries && SpelledIn(lang, e, k, form, word)
  }

  ghost predicate AcceptedBy(lang: Language, entries: seq<Entry>, path: Path, key: string, chars: nat) {
    exists e, k: nat :: e in entries && AcceptedIn(lang, e, k, path, key, chars)
  }

  ghost predicate PrefixOf(lang: Language, e: Entry, k: nat, path: Path) {
    0 < k <= |e.words| && path == Folded(lang, e.words[..k])
  }

  ghost predicate EndsAt(lang: Language, e: Entry, path: Path, t: Terminal) {
    Folded(lang, e.words) == path && t == Terminal(e.labelText, e.edges, lang.spelling(e.words))
  }

  lemma EntryFactsMean(lang: Language, f: Facts, e: Entry, form: string, word: string, path: Path, key: string,
                       chars: nat, t: Terminal)
    ensures var g := EntryFacts(lang, f, e);
            && ((form, word) in g.spells <==>
                 (form, word) in f.spells || exists k: nat :: SpelledIn(lang, e, k, form, word))
            && (path in g.paths <==> path in f.paths || exists k: nat :: PrefixOf(lang, e, k, path))
            && (Accepts(g, path, key, chars) <==>
                 Accepts(f, path, key, chars) || exists k: nat :: AcceptedIn(lang, e, k, path, key, chars))
            && (t in TerminalsAt(g, path) <==> t in TerminalsAt(f, path) || EndsAt(lang, e, path, t))
  {
    hide Keys, WordForms, WordFacts;
    WordFactsMean(lang, f, e, |e.words|, form, word, path, key, chars);
    if exists k: nat :: PrefixOf(lang, e, k, path) {
      var k: nat :| PrefixOf(lang, e, k, path);
      assert k <= |e.words| && path == Folded(lang, e.words[..k]);
    }
    if path in EntryFacts(lang, f, e).paths && path !in f.paths {
      var k: nat :| 0 < k <= |e.words| && path == Folded(lang, e.words[..k]);
      assert PrefixOf(lang, e, k, path);
    }
    if exists k: nat :: SpelledIn(lang, e, k, form, word) {
      var k: nat :| SpelledIn(lang, e, k, form, word);
      assert k < |e.words|;
    }
  }

  /** The facts of a list of entries say what some entry of the list says, and nothing else. */
  lemma {:induction false} AllFactsMean(lang: Language, entries: seq<Entry>, form: string, word: string, path: Path,
                                        key: string,
                                        chars: nat, t: Terminal)
    ensures var f := AllFacts(lang, entries);
            && ((form, word) in f.spells <==> SpelledBy(lang, entries, form, word))
            && (path in f.paths <==> path == [] || exists e, k: nat :: e in entries && PrefixOf(lang, e, k, path))
            && (Accepts(f, path, key, chars) <==> AcceptedBy(lang, entries, path, key, chars))
            && (t in TerminalsAt(f, path) <==> exists e :: e in entries && EndsAt(lang, e, path, t))
    decreases |entries|
  {
    hide SpelledIn, AcceptedIn, PrefixOf, EndsAt, EntryFacts, Accepts, TerminalsAt;
    if entries == [] {
      NoFactsMean(path, key, chars, t);
    } else {
      var n := |entries| - 1;
      var before, e := entries[..n], entries[n];
      AllFactsMean(lang, before, form, word, path, key, chars, t);
      EntryFactsMean(lang, AllFacts(lang, before), e, form, word, path, key, chars, t);
      assert entries == before + [e];
      assert forall x :: x in entries <==> x in before || x == e;
    }
  }

  /** Every known path spells the first words of an entry, so that none is longer than the longest. */
  lemma PathIsPrefix(lang: Language, entries: seq<Entry>, path: Path)
    requires path in AllFacts(lang, entries).paths
    ensures path == [] || exists e :: e in entries && |path| <= |e.words| && path == Folded(lang, e.words[..|path|])
  {
    hide AllFacts, Folded;
    AllFactsMean(lang, entries, [], [], path, [], 0, Terminal([], EdgePunctuation([], []), None));
    if e, k: nat :| e in entries && PrefixOf(lang, e, k, path) {
      assert |path| == k;
    }
  }

  lemma NoFactsMean(path: Path, key: string, chars: nat, t: Terminal)
    ensures !Accepts(NoFacts, path, key, chars) && t !in TerminalsAt(NoFacts, path)
  {
  }

  // ---------- spelled runs ----------

  /** From token `first` on, the spans spell the words of `path`, each after a separator the facts allow. */
  ghost predicate Run(lang: Language, f: Facts, doc: Document, first: nat, spans: seq<Token>, path: Path) {
    && 0 < |spans| == |path| && first + |path| <= |doc.tokens|
    && (forall j :: 0 <= j < |path| ==> Reads(lang, f, doc, first, spans, path, j))
    && (forall j :: 0 < j < |path| ==> Joins(lang, f, doc, spans, path, j))
  }

  ghost predicate Reads(lang: Language, f: Facts, doc: Document, first: nat, spans: seq<Token>, path: Path, j: nat)
    requires j < |path| == |spans| && first + |path| <= |doc.tokens|
  {
    && spans[j] in Spellings(lang, doc.text, doc.tokens[first + j])
    && (FormOf(lang, doc, spans[j]), path[j]) in f.spells
  }

  ghost predicate Joins(lang: Language, f: Facts, doc: Document, spans: seq<Token>, path: Path, j: nat)
    requires 0 < j < |path| == |spans|
  {
    Allows(f, path[..j + 1], SeparatorAt(lang, doc, spans[j - 1].end, spans[j].start))
  }

  /** The hit of an entry ending at the path, around the whole run. */
  ghost predicate RunEnds(lang: Language, f: Facts, doc: Document, spans: seq<Token>, path: Path, h: Hit)
    requires spans != []
  {
    Ends(lang, f, doc, path, spans[0].start, spans[|spans| - 1].end, h)
  }

  lemma RunLonger(lang: Language, f: Facts, doc: Document, first: nat, spans: seq<Token>, path: Path, s: Token,
                  word: string)
    requires Run(lang, f, doc, first, spans, path) && first + |path| < |doc.tokens|
    requires s in Spellings(lang, doc.text, doc.tokens[first + |path|])
    requires Follows(lang, f, doc, path, spans[|spans| - 1].end, s, word)
    ensures Run(lang, f, doc, first, spans + [s], path + [word])
  {
    hide Spellings, FormOf, SeparatorAt, Allows;
    var spans', path' := spans + [s], path + [word];
    forall j | 0 <= j < |path'| ensures Reads(lang, f, doc, first, spans', path', j) {
      if j < |path| { assert Reads(lang, f, doc, first, spans, path, j); }
    }
    forall j | 0 < j < |path'| ensures Joins(lang, f, doc, spans', path', j) {
      if j < |path| {
        assert Joins(lang, f, doc, spans, path, j);
        assert path'[..j + 1] == path[..j + 1];
      } else {
        assert path'[..j + 1] == path + [word];
      }
    }
  }

  /** Reading on from a run gives a longer run at whose end an entry ends. */
  lemma {:induction false} ReachesRuns(lang: Language, f: Facts, doc: Document, first: nat, spans: seq<Token>,
                                       path: Path, h: Hit)
    returns (spans': seq<Token>, path': Path)
    requires Run(lang, f, doc, first, spans, path)
    requires Reaches(lang, f, doc, path, spans[0].start, spans[|spans| - 1].end, first + |path|, h)
    ensures Run(lang, f, doc, first, spans', path') && RunEnds(lang, f, doc, spans', path', h)
    ensures spans' != [] && spans'[0] == spans[0] && path' != [] && path'[0] == path[0]
    decreases |doc.tokens| - |path|
  {
    hide Spellings, FormOf, SeparatorAt, Allows, Follows;
    var next, end := first + |path|, spans[|spans| - 1].end;
    if Ends(lang, f, doc, path, spans[0].start, end, h) {
      spans', path' := spans, path;
    } else {
      var s, word :| s in Spellings(lang, doc.text, doc.tokens[next]) && Follows(lang, f, doc, path, end, s, word)
        && Reaches(lang, f, doc, path + [word], spans[0].start, s.end, next + 1, h);
      RunLonger(lang, f, doc, first, spans, path, s, word);
      spans', path' := ReachesRuns(lang, f, doc, first, spans + [s], path + [word], h);
    }
  }

  /** A run at whose end an entry ends is reached from each of its prefixes. */
  lemma {:induction false} RunReaches(lang: Language, f: Facts, doc: Document, first: nat, spans: seq<Token>,
                                      path: Path, h: Hit, n: nat)
    requires Run(lang, f, doc, first, spans, path) && RunEnds(lang, f, doc, spans, path, h) && 0 < n <= |path|
    ensures Reaches(lang, f, doc, path[..n], spans[0].start, spans[n - 1].end, first + n, h)
    decreases |path| - n
  {
    hide Spellings, FormOf, SeparatorAt, Allows, Ends;
    if n == |path| {
      assert path[..n] == path;
    } else {
      RunReaches(lang, f, doc, first, spans, path, h, n + 1);
      assert Reads(lang, f, doc, first, spans, path, n) && Joins(lang, f, doc, spans, path, n);
      assert path[..n + 1] == path[..n] + [path[n]];
      assert Follows(lang, f, doc, path[..n], spans[n - 1].end, spans[n], path[n]);
    }
  }

  /** The hits are exactly the runs of spelled words that end where an entry ends. */
  lemma FoundIsRun(lang: Language, entries: seq<Entry>, doc: Document, h: Hit)
    ensures Found(lang, AllFacts(lang, entries), doc, h) <==>
      exists first: nat, spans: seq<Token>, path :: Run(lang, AllFacts(lang, entries), doc, first, spans, path)
                                     && RunEnds(lang, AllFacts(lang, entries), doc, spans, path, h)
  {
    hide Spellings, FormOf, SeparatorAt, Allows, Ends, AllFacts;
    var f := AllFacts(lang, entries);
    if Found(lang, f, doc, h) {
      var i, s, word :| 0 <= i < |doc.tokens| && s in Spellings(lang, doc.text, doc.tokens[i])
        && Opens(lang, f, doc, i, s, word, h);
      var spans, path := [s], [word];
      assert Reads(lang, f, doc, i, spans, path, 0);
      assert Run(lang, f, doc, i, spans, path);
      spans, path := ReachesRuns(lang, f, doc, i, spans, path, h);
    }
    if exists first: nat, spans: seq<Token>, path ::
         Run(lang, f, doc, first, spans, path) && RunEnds(lang, f, doc, spans, path, h)
    {
      var first: nat, spans: seq<Token>, path :|
        Run(lang, f, doc, first, spans, path) && RunEnds(lang, f, doc, spans, path, h);
      RunReaches(lang, f, doc, first, spans, path, h, 1);
      assert path[..1] == [path[0]];
      assert Reads(lang, f, doc, first, spans, path, 0);
      FirstWordKnown(lang, entries, doc, spans, path, h);
      assert Opens(lang, f, doc, first, spans[0], path[0], h);
    }
  }

  /** The terminal's hit around the whole run. */
  ghost predicate TerminalHit(lang: Language, doc: Document, t: Terminal, spans: seq<Token>, h: Hit) {
    spans != [] && HitOf(lang.marks, doc.text, t, spans[0].start, spans[|spans| - 1].end) == Some(h)
  }

  lemma FirstWordKnown(lang: Language, entries: seq<Entry>, doc: Document, spans: seq<Token>, path: Path, h: Hit)
    requires spans != [] && path != [] && RunEnds(lang, AllFacts(lang, entries), doc, spans, path, h)
    ensures [path[0]] in AllFacts(lang, entries).paths
  {
    hide AllFacts, HitOf, Accepts, SpelledBy, AcceptedBy;
    var t :| t in TerminalsAt(AllFacts(lang, entries), path)
      && TerminalHit(lang, doc, t, spans, h);
    AllFactsMean(lang, entries, [], [], path, [], 0, t);
    var e :| e in entries && EndsAt(lang, e, path, t);
    assert Folded(lang, e.words[..1]) == [path[0]];
    assert PrefixOf(lang, e, 1, [path[0]]);
    AllFactsMean(lang, entries, [], [], [path[0]], [], 0, t);
  }

  // ---------- the trie's promises, in terms of entries and of the text alone ----------

  /** What the text shows at a span, which is nothing outside the text. */
  ghost function Shown(doc: Document, s: Token): string {
    if s.start <= s.end <= |doc.text| then doc.text[s.start..s.end] else []
  }

  /** The token as it stands, or without the numbers at its two ends when it holds more than numbers. */
  ghost predicate IsReading(lang: Language, doc: Document, token: Token, s: Token) {
    || s == token
    || (s != token && token.start <= s.start < s.end <= token.end <= |doc.text|
        && !lang.isNumeric(doc.text[s.start]) && !lang.isNumeric(doc.text[s.end - 1])
        && (forall i :: token.start <= i < s.start || s.end <= i < token.end ==> lang.isNumeric(doc.text[i])))
  }

  lemma {:induction false} DigitsLead(lang: Language, word: string)
    ensures LeadingDigits(lang, word) <= |word|
    ensures forall i :: 0 <= i < LeadingDigits(lang, word) ==> lang.isNumeric(word[i])
    ensures LeadingDigits(lang, word) < |word| ==> !lang.isNumeric(word[LeadingDigits(lang, word)])
  {
    if word != [] && lang.isNumeric(word[0]) { DigitsLead(lang, word[1..]); }
  }

  lemma {:induction false} DigitsTrail(lang: Language, word: string)
    ensures TrailingDigits(lang, word) <= |word|
    ensures forall i :: |word| - TrailingDigits(lang, word) <= i < |word| ==> lang.isNumeric(word[i])
    ensures TrailingDigits(lang, word) < |word| ==> !lang.isNumeric(word[|word| - 1 - TrailingDigits(lang, word)])
  {
    if word != [] && lang.isNumeric(word[|word| - 1]) { DigitsTrail(lang, word[..|word| - 1]); }
  }

  /** `word[i..j]` begins and ends with no number, and has only numbers around it. */
  ghost predicate IsCore(lang: Language, word: string, i: nat, j: nat) {
    && i < j <= |word| && !lang.isNumeric(word[i]) && !lang.isNumeric(word[j - 1])
    && (forall k :: 0 <= k < i || j <= k < |word| ==> lang.isNumeric(word[k]))
  }

  lemma CoreIs(lang: Language, word: string, i: nat, j: nat)
    ensures var before, after := LeadingDigits(lang, word), TrailingDigits(lang, word);
            IsCore(lang, word, i, j) <==> before + after < |word| && i == before && j == |word| - after
  {
    hide LeadingDigits, TrailingDigits;
    DigitsLead(lang, word);
    DigitsTrail(lang, word);
  }

  /** A token is read exactly so. */
  lemma ReadingsAre(lang: Language, doc: Document, token: Token, s: Token)
    ensures s in Spellings(lang, doc.text, token) <==> IsReading(lang, doc, token, s)
  {
    hide LeadingDigits, TrailingDigits, IsCore;
    var word := Shown(doc, token);
    if token.start <= s.start && token.start <= s.end {
      CoreIs(lang, word, s.start - token.start, s.end - token.start);
      if s != token { CoreInText(lang, doc, token, s); }
    }
  }

  lemma CoreInText(lang: Language, doc: Document, token: Token, s: Token)
    requires token.start <= s.start && token.start <= s.end && s != token
    ensures IsCore(lang, Shown(doc, token), s.start - token.start, s.end - token.start)
       <==> IsReading(lang, doc, token, s)
  {
    var word := Shown(doc, token);
    forall k | 0 <= k < |word| ensures word[k] == doc.text[token.start + k] {}
    forall i | token.start <= i < token.start + |word| ensures word[i - token.start] == doc.text[i] {}
  }

  /** The reading folds to the word, or to one of its declined forms. */
  ghost predicate Spells(lang: Language, doc: Document, token: Token, s: Token, word: string) {
    && IsReading(lang, doc, token, s)
    && (lang.fold(Shown(doc, s)) == lang.fold(word) || lang.fold(Shown(doc, s)) in lang.declined(word))
  }

  /** The text between two offsets parts two words: it is not empty and goes over at most two lines. */
  ghost predicate Parts(doc: Document, from: nat, to: nat) {
    && from < to <= |doc.text|
    && forall a: nat, b: nat :: a < b ==> !(BreakAt(doc.text[from..to], a) && BreakAt(doc.text[from..to], b))
  }

  lemma SeparatorParts(lang: Language, doc: Document, from: nat, to: nat)
    ensures SeparatorAt(lang, doc, from, to)
         == if Parts(doc, from, to) then Some((SeparatorMarks(lang.marks, doc.text[from..to]), to - from)) else None
  {
    hide SeparatorMarks, BreakAt;
    if from <= to <= |doc.text| {
      var between := doc.text[from..to];
      ObservedSeparatorMeans(lang.marks, between, SeparatorMarks(lang.marks, between), |between|);
      OnlyThatSeparator(lang.marks, between);
    }
  }

  lemma OnlyThatSeparator(m: Marks, gap: string)
    ensures ObservedSeparator(m, gap).Some? ==> ObservedSeparator(m, gap).value == (SeparatorMarks(m, gap), |gap|)
  {
  }

  /** The hit takes in the entry's marks on either side of the whole run, as the text shows them up to
      canonical form, and carries the entry's label and spelling. */
  ghost predicate HitAround(lang: Language, doc: Document, e: Entry, spans: seq<Token>, h: Hit) {
    && spans != [] && h.labelText == e.labelText && h.spelling == lang.spelling(e.words)
    && h.start + |e.edges.leading| == spans[0].start <= |doc.text|
    && h.end == spans[|spans| - 1].end + |e.edges.trailing| <= |doc.text|
    && (forall i :: 0 <= i < |e.edges.leading| ==>
          lang.marks.canonical(doc.text[h.start + i]) == lang.marks.canonical(e.edges.leading[i]))
    && (forall i :: 0 <= i < |e.edges.trailing| ==>
          lang.marks.canonical(doc.text[spans[|spans| - 1].end + i]) == lang.marks.canonical(e.edges.trailing[i]))
  }

  lemma HitIsAround(lang: Language, doc: Document, e: Entry, spans: seq<Token>, h: Hit)
    requires spans != []
    ensures TerminalHit(lang, doc, TerminalOf(lang, e), spans, h) <==> HitAround(lang, doc, e, spans, h)
  {
  }

  /** The text spells the whole entry from token `first` on: its words in order, each separator one
      its own rule accepts, and its edge punctuation around them. */
  ghost predicate Spelled(lang: Language, doc: Document, e: Entry, first: nat, spans: seq<Token>, h: Hit) {
    && 0 < |spans| == |e.words| && first + |spans| <= |doc.tokens|
    && (forall j :: 0 <= j < |spans| ==> Spells(lang, doc, doc.tokens[first + j], spans[j], e.words[j]))
    && (forall j :: 0 < j < |spans| ==> OwnSeparator(lang, doc, e, spans, j))
    && HitAround(lang, doc, e, spans, h)
  }

  ghost predicate OwnSeparator(lang: Language, doc: Document, e: Entry, spans: seq<Token>, j: nat)
    requires 0 < j < |spans|
  {
    var (from, to) := (spans[j - 1].end, spans[j].start);
    && Parts(doc, from, to) && j <= |e.gaps|
    && SeparatorMarks(lang.marks, doc.text[from..to]) in Keys(e.gaps[j - 1]) && to - from <= e.gaps[j - 1].maxChars
  }

  /** Complete: wherever the text spells an inserted entry, the entry's hit is found. */
  lemma SpelledEntryIsFound(lang: Language, entries: seq<Entry>, doc: Document, e: Entry, first: nat,
                            spans: seq<Token>, h: Hit)
    requires e in entries && Spelled(lang, doc, e, first, spans, h)
    ensures Found(lang, AllFacts(lang, entries), doc, h)
  {
    hide Spellings, IsReading, SeparatorAt, AllFacts, Keys, HitOf, HitAround, TerminalOf, Parts;
    var f, path := AllFacts(lang, entries), Folded(lang, e.words);
    var t := TerminalOf(lang, e);
    forall j | 0 <= j < |path| ensures Reads(lang, f, doc, first, spans, path, j) {
      ReadingsAre(lang, doc, doc.tokens[first + j], spans[j]);
      assert Spells(lang, doc, doc.tokens[first + j], spans[j], e.words[j]);
      assert SpelledIn(lang, e, j, FormOf(lang, doc, spans[j]), path[j]);
      AllFactsMean(lang, entries, FormOf(lang, doc, spans[j]), path[j], [], [], 0, t);
    }
    forall j | 0 < j < |path| ensures Joins(lang, f, doc, spans, path, j) {
      assert OwnSeparator(lang, doc, e, spans, j);
      SeparatorParts(lang, doc, spans[j - 1].end, spans[j].start);
      var (key, chars) := SeparatorAt(lang, doc, spans[j - 1].end, spans[j].start).value;
      assert Folded(lang, e.words[..j + 1]) == path[..j + 1];
      assert AcceptedIn(lang, e, j, path[..j + 1], key, chars);
      AllFactsMean(lang, entries, [], [], path[..j + 1], key, chars, t);
    }
    assert Run(lang, f, doc, first, spans, path);
    HitIsAround(lang, doc, e, spans, h);
    EntryEnds(lang, entries, e);
    assert RunEnds(lang, f, doc, spans, path, h);
    FoundIsRun(lang, entries, doc, h);
  }

  lemma EntryEnds(lang: Language, entries: seq<Entry>, e: Entry)
    requires e in entries
    ensures TerminalOf(lang, e) in TerminalsAt(AllFacts(lang, entries), Folded(lang, e.words))
  {
    hide AllFacts, Folded;
    AllFactsMean(lang, entries, [], [], Folded(lang, e.words), [], 0, TerminalOf(lang, e));
    assert EndsAt(lang, e, Folded(lang, e.words), TerminalOf(lang, e));
  }

  /** The rules between an entry's words are read off gaps of a term, with or without a comma added. */
  ghost predicate RulesOfTerm(lang: Language, e: Entry) {
    forall k :: 0 <= k < |e.gaps| ==> exists gap ::
      e.gaps[k] == FromTermGap(lang.marks, gap) || e.gaps[k] == WithComma(FromTermGap(lang.marks, gap))
  }

  /** The text between two tokens joins the words of `e` there: not empty, no longer than the rule
      allows, broken over at most two lines, with marks that suit the rule. */
  ghost predicate JoinedBy(lang: Language, doc: Document, e: Entry, spans: seq<Token>, j: nat)
    requires 0 < j < |spans|
  {
    var (from, to) := (spans[j - 1].end, spans[j].start);
    && Parts(doc, from, to) && j <= |e.gaps|
    && Suits(lang.marks, e.gaps[j - 1], doc.text[from..to]) && to - from <= e.gaps[j - 1].maxChars
  }

  lemma JoinedIsOwnSeparator(lang: Language, doc: Document, e: Entry, spans: seq<Token>, j: nat)
    requires RulesOfTerm(lang, e) && 0 < j < |spans|
    ensures JoinedBy(lang, doc, e, spans, j) <==> OwnSeparator(lang, doc, e, spans, j)
  {
    hide Keys, Suits, FromTermGap, WithComma;
    var (from, to) := (spans[j - 1].end, spans[j].start);
    if Parts(doc, from, to) && j <= |e.gaps| {
      var rule := e.gaps[j - 1];
      var gap :| rule == FromTermGap(lang.marks, gap) || rule == WithComma(FromTermGap(lang.marks, gap));
      TermRulesAscend(lang.marks, gap);
      SuitsMeansKey(lang.marks, rule, doc.text[from..to]);
    }
  }

  /** Complete in terms of the text alone: wherever the words of an inserted entry stand in order, the
      text between them made of marks their rules have, the entry's hit is found. */
  lemma JoinedEntryIsFound(lang: Language, entries: seq<Entry>, doc: Document, e: Entry, first: nat,
                            spans: seq<Token>, h: Hit)
    requires e in entries && RulesOfTerm(lang, e) && 0 < |spans| == |e.words| && first + |spans| <= |doc.tokens|
    requires forall j :: 0 <= j < |spans| ==> Spells(lang, doc, doc.tokens[first + j], spans[j], e.words[j])
    requires forall j :: 0 < j < |spans| ==> JoinedBy(lang, doc, e, spans, j)
    requires HitAround(lang, doc, e, spans, h)
    ensures Found(lang, AllFacts(lang, entries), doc, h)
  {
    hide Spells, JoinedBy, OwnSeparator, HitAround, AllFacts, Found;
    forall j | 0 < j < |spans| ensures OwnSeparator(lang, doc, e, spans, j) {
      JoinedIsOwnSeparator(lang, doc, e, spans, j);
    }
    SpelledEntryIsFound(lang, entries, doc, e, first, spans, h);
  }

  /** Each word of the run is a spelling of some entry's word, and each separator is accepted by
      an entry that shares the words up to it. */
  ghost predicate Explained(lang: Language, entries: seq<Entry>, doc: Document, first: nat, spans: seq<Token>,
                            path: Path) {
    && 0 < |spans| == |path| && first + |path| <= |doc.tokens|
    && (forall j :: 0 <= j < |path| ==> ReadsSpelling(lang, entries, doc, first, spans, path, j))
    && (forall j :: 0 < j < |path| ==> SeparatorAccepted(lang, entries, doc, spans, path, j))
  }

  ghost predicate ReadsSpelling(lang: Language, entries: seq<Entry>, doc: Document, first: nat, spans: seq<Token>,
                                path: Path, j: nat)
    requires j < |path| == |spans| && first + |path| <= |doc.tokens|
  {
    && IsReading(lang, doc, doc.tokens[first + j], spans[j])
    && SpelledBy(lang, entries, lang.fold(Shown(doc, spans[j])), path[j])
  }

  ghost predicate SeparatorAccepted(lang: Language, entries: seq<Entry>, doc: Document, spans: seq<Token>, path: Path,
                                    j: nat)
    requires 0 < j < |path| == |spans|
  {
    var (from, to) := (spans[j - 1].end, spans[j].start);
    Parts(doc, from, to)
    && AcceptedBy(lang, entries, path[..j + 1], SeparatorMarks(lang.marks, doc.text[from..to]), to - from)
  }

  /** Sound and complete: the hits are exactly the explained runs along an inserted entry's words. */
  lemma FoundIsExplained(lang: Language, entries: seq<Entry>, doc: Document, h: Hit)
    ensures Found(lang, AllFacts(lang, entries), doc, h) <==>
      exists first: nat, spans: seq<Token>, e ::
        e in entries && Explained(lang, entries, doc, first, spans, Folded(lang, e.words))
        && HitAround(lang, doc, e, spans, h)
  {
    hide AllFacts, Reaches, Reads, Joins, Explained, HitOf, HitAround, TerminalOf;
    var f := AllFacts(lang, entries);
    FoundIsRun(lang, entries, doc, h);
    if Found(lang, f, doc, h) {
      var first: nat, spans: seq<Token>, path :|
        Run(lang, f, doc, first, spans, path) && RunEnds(lang, f, doc, spans, path, h);
      RunExplained(lang, entries, doc, first, spans, path);
      var e := RunOfEntry(lang, entries, doc, spans, path, h);
      assert Explained(lang, entries, doc, first, spans, Folded(lang, e.words));
    }
    if exists first: nat, spans: seq<Token>, e ::
      e in entries && Explained(lang, entries, doc, first, spans, Folded(lang, e.words))
        && HitAround(lang, doc, e, spans, h)
    {
      var first: nat, spans: seq<Token>, e :|
        e in entries && Explained(lang, entries, doc, first, spans, Folded(lang, e.words))
        && HitAround(lang, doc, e, spans, h);
      RunExplained(lang, entries, doc, first, spans, Folded(lang, e.words));
      EntryEnds(lang, entries, e);
      AroundIsNotEmpty(lang, doc, e, spans, h);
      HitIsAround(lang, doc, e, spans, h);
      assert RunEnds(lang, f, doc, spans, Folded(lang, e.words), h);
    }
  }

  lemma AroundIsNotEmpty(lang: Language, doc: Document, e: Entry, spans: seq<Token>, h: Hit)
    requires HitAround(lang, doc, e, spans, h)
    ensures spans != []
  {
  }

  /** The terminal a run ends at is that of an entry, whose hit it is. */
  lemma RunOfEntry(lang: Language, entries: seq<Entry>, doc: Document, spans: seq<Token>, path: Path, h: Hit)
    returns (e: Entry)
    requires spans != [] && RunEnds(lang, AllFacts(lang, entries), doc, spans, path, h)
    ensures e in entries && path == Folded(lang, e.words) && HitAround(lang, doc, e, spans, h)
  {
    hide AllFacts, HitOf, HitAround;
    var t :| t in TerminalsAt(AllFacts(lang, entries), path) && TerminalHit(lang, doc, t, spans, h);
    AllFactsMean(lang, entries, [], [], path, [], 0, t);
    e :| e in entries && EndsAt(lang, e, path, t);
    HitIsAround(lang, doc, e, spans, h);
  }

  lemma RunExplained(lang: Language, entries: seq<Entry>, doc: Document, first: nat, spans: seq<Token>, path: Path)
    ensures Run(lang, AllFacts(lang, entries), doc, first, spans, path) <==>
      Explained(lang, entries, doc, first, spans, path)
    ensures Explained(lang, entries, doc, first, spans, path) ==> spans != []
  {
    hide Spellings, IsReading, SeparatorAt, Parts, AllFacts, SpelledBy, AcceptedBy;
    var f := AllFacts(lang, entries);
    if 0 < |spans| == |path| && first + |path| <= |doc.tokens| {
      var t := Terminal([], EdgePunctuation([], []), None);
      forall j | 0 <= j < |path|
        ensures Reads(lang, f, doc, first, spans, path, j) <==> ReadsSpelling(lang, entries, doc, first, spans, path, j)
      {
        ReadingsAre(lang, doc, doc.tokens[first + j], spans[j]);
        AllFactsMean(lang, entries, FormOf(lang, doc, spans[j]), path[j], [], [], 0, t);
      }
      forall j | 0 < j < |path|
        ensures Joins(lang, f, doc, spans, path, j) <==> SeparatorAccepted(lang, entries, doc, spans, path, j)
      {
        SeparatorParts(lang, doc, spans[j - 1].end, spans[j].start);
        var separator := SeparatorAt(lang, doc, spans[j - 1].end, spans[j].start);
        if separator.Some? {
          AllFactsMean(lang, entries, [], [], path[..j + 1], separator.value.0, separator.value.1, t);
        }
      }
    }
  }

  /** Monotone: inserting more entries never removes a hit. */
  lemma MoreEntriesKeepHits(lang: Language, entries: seq<Entry>, more: seq<Entry>, doc: Document, h: Hit)
    requires Found(lang, AllFacts(lang, entries), doc, h)
    ensures Found(lang, AllFacts(lang, entries + more), doc, h)
  {
    hide IsReading, Parts, AllFacts, HitAround, Found, SpelledIn, AcceptedIn;
    FoundIsExplained(lang, entries, doc, h);
    FoundIsExplained(lang, entries + more, doc, h);
    var first: nat, spans: seq<Token>, e :|
      e in entries && Explained(lang, entries, doc, first, spans, Folded(lang, e.words))
      && HitAround(lang, doc, e, spans, h);
    var path := Folded(lang, e.words);
    forall j | 0 <= j < |path| ensures ReadsSpelling(lang, entries + more, doc, first, spans, path, j) {
      assert ReadsSpelling(lang, entries, doc, first, spans, path, j);
    }
    forall j | 0 < j < |path| ensures SeparatorAccepted(lang, entries + more, doc, spans, path, j) {
      assert SeparatorAccepted(lang, entries, doc, spans, path, j);
    }
    assert Explained(lang, entries + more, doc, first, spans, path);
  }
}

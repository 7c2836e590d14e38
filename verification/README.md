# Verified core of the anonymizer

Dafny models of the parts of the anonymization engine in which a fast form must agree with a simple
one, together with proofs of that agreement for all inputs. `dafny verify dfyconfig.toml` checks
everything.

## The components

* **Gazetteer matching** (`EditDistance`, `DeletionIndex`, `GapRules`, `WordTrie`, `SequenceTrie`,
  `SpanIndexes`, `ContainedHits`, `Markers`, `ReportedMarkers`). The two-row edit distance is
  Levenshtein's distance and counts edits. The index of deletion neighbourhoods, with the lookup
  distance taken from the summary of entry lengths, returns what a scan of all rows returns. The word
  trie finds every place where a text spells an entry, explains every hit, and loses none when entries
  are added. The stack scan for balanced markers agrees with a recursive reading in linear work, and
  `ReportedMarkers` says which pairs it reports without either.
* **Lockfile rewriting** (`JsonText`, `LockfileSyntax`, `LockfileParser`, `LockfileNodes`,
  `LockfileEdit`, `LockfileTrees`, `LockfileSplices`, `LockfileSync`, `LockfileEscapes`,
  `LockfileLayouts`, `LockfileReadings`). Texts are sequences of UTF-16 code units, as in ECMAScript;
  string literals follow section 7 of RFC 8259. The parser with its shared cursor is proved against a
  functional grammar, the grammar accepts exactly the ways to lay out a tree, and the spliced text
  parses to the same tree with only the version strings changed.
* **Acronyms** (`Acronym`): the set of states reached word by word decides an existential split.
* **Placeholders** (`PlaceholderText`, `Placeholders`): printing, recognising and allocating.
* **Address context and seeds** (`HeaderScan`, `Proximity`, `ScanRanges`, `SeedClusters`,
  `SeedWindows`, `PostalSeeds`): early exits, half-spaces, frozen indexes and byte windows against the
  scans they replace.
* **Offsets and normalisation** (`Text`, `ByteOffsets`, `OffsetMaps`, `BoundarySweep`, `Normalize`):
  UTF-8 bytes (section 3 of RFC 3629), UTF-16 units (section 2.1 of RFC 2781) and characters.
* **Sessions** (`SessionPlans`, `SessionInputs`): optimistic plan and commit over shared sessions.

`Common`, `Sorting` and `Subsequences` hold what several components share. `LockfileNodes`,
`LockfileTrees` and `LockfileSplices` build up to the theorems in `LockfileSync`.

## How the model is set up

Text is a sequence of Unicode scalar values with their real widths; a byte offset is the sum of the
widths before it. Word classes, case folding, upper-casing, declension, entity normalisation, the
candidates that regular expressions find and the reading of a gap between two address seeds are
parameters, so the theorems hold for any choice of them. Classes stand where the source updates an
object in place; loops stand where the source loops; each such method is tied to a function or a
property that is proved separately.

`hide` statements inside proofs keep function bodies out of the solver's way; they assume nothing.

## Where code and promise part

* `LockfileSync.UpThenDownRestores`: the comment of `syncWorkspaceVersions` promises that a
  version-up and a version-down run restore the original bytes. They do exactly when the version
  literals were printed as `JSON.stringify` prints them. `LockfileEscapes.EscapeNotRestored` shows a
  lockfile with an escaped digit that is not put back.
* `Placeholders.OtherKeysAreNot`: a label key that is empty or holds a bracket yields placeholders
  that the recogniser does not see, so they may already stand in the text.
* `PostalSeeds.DigitStateHidden`: a comment says that seeds added in the loop cannot cover what comes
  later. A state abbreviation made of digits can be the end of the postal code before it;
  `FrozenIsRescanned` gives the exact condition, and `LettersAreNotHidden` the usual reason it holds.
* `Normalize.LastBoundaryLost`: the value that marks slots between boundaries is the largest 32-bit
  offset, so a replaced text of exactly that many bytes loses its last boundary. `OffsetMaps` gives
  the exact condition, and `NoBoundaryLost` covers all shorter texts.

Two oddities stay out of reach of callers.

* Taken by itself, the pass that drops contained hits also drops a hit that ends at offset 0
  (`ContainedHits.EmptyHitDropped`). Both routes into the pass first ask for a character before the
  hit's end (`crates/anonymize-core/src/gazetteer.rs:703`, `:729` and `:1829-1833`), and for such hits
  `DroppedIffContained` holds as it should.
* The proximity index never hands out an entity that ends before the query and starts behind the byte
  range (`Proximity.InvertedEntityMissed`). Such an entity ends before it starts; a caller's detection
  of that shape is refused (`crates/anonymize-core/src/resolution/types.rs:79-84`), and a detector
  reports what it found in the text. For entities that start no later than they end
  `OrderedIndexIsExact` holds as it should.

## Model

| member | source | states |
|---|---|---|
| `EditDistance.TwoRowDistance` | crates/anonymize-core/src/gazetteer.rs:1851-1881 | the loop over two rows, overwritten and swapped, returns the recursive Levenshtein distance of any two strings |
| `EditDistance.FillRow` | crates/anonymize-core/src/gazetteer.rs:1858-1876 | one inner pass turns the next row into the distances after one more letter and leaves the other row alone |
| `EditDistance.Symmetric` | crates/anonymize-core/src/gazetteer.rs:1851-1881 | the distance does not depend on the order of its arguments |
| `EditDistance.ZeroOnlyForEqual` | crates/anonymize-core/src/gazetteer.rs:1851-1881 | the distance is zero exactly for equal strings |
| `EditDistance.Triangle` | crates/anonymize-core/src/gazetteer.rs:1851-1881 | the distance obeys the triangle inequality |
| `EditDistance.LengthGap` | crates/anonymize-core/src/gazetteer.rs:1430-1440 | the distance is at least the gap in length, which the length filter relies on, and at most the longer length |
| `EditDistance.DistanceIsLeastEditCount` | crates/anonymize-core/src/gazetteer.rs:1851-1881 | the distance is at most k exactly when k insertions, deletions and substitutions suffice |
| `DeletionIndex.DeletionVariants` | crates/anonymize-core/src/gazetteer.rs:1760-1779 | the grown set is exactly the subsequences that lack at most `max` letters, and no larger than the number of ways to leave out that many |
| `DeletionIndex.DeleteOnce` | crates/anonymize-core/src/gazetteer.rs:1766-1778 | one round adds every string one deletion away from the frontier, and the next frontier is what was new |
| `DeletionIndex.CommonVariant` | crates/anonymize-core/src/gazetteer.rs:840-880 | two strings always have a common subsequence that costs neither of them more deletions than their edit distance |
| `DeletionIndex.VariantsAreFew` | crates/anonymize-core/src/gazetteer.rs:1760-1779 | any set of variants of a string has at most as many members as there are choices of up to `max` of its letters |
| `DeletionIndex.LookupsAreBounded` | crates/anonymize-core/src/gazetteer.rs:786-790 | for every span that is looked up at all that is at most 2212, however many entries there are |
| `DeletionIndex.AddedRowFound` | crates/anonymize-core/src/gazetteer.rs:1637-1662 | the row of an entry is found for exactly the spans of at most one word less that some edits turn into it: at most the distance asked for, at most two from six letters on, at most one for five letters cased as a proper noun, else none; a short row asks for its case shape |
| `DeletionIndex.LinearScan` | crates/anonymize-core/src/gazetteer.rs:868-879 | the reference: exactly the indexed rows with a fitting token count within their own distance, ascending |
| `DeletionIndex.LargestDistance` | crates/anonymize-core/src/gazetteer.rs:1430-1440 | the largest distance of an entry length that could match, or none when no length could |
| `DeletionIndex.FuzzyShape.Add` | crates/anonymize-core/src/gazetteer.rs:1423-1429 | keeps the largest distance per entry length and the longest reach in characters |
| `DeletionIndex.SummarisesOneMore` | crates/anonymize-core/src/gazetteer.rs:518-538 | adding a row keeps the length summary exact: per length the largest distance of an indexed row |
| `DeletionIndex.IndexesOneMore` | crates/anonymize-core/src/gazetteer.rs:518-538 | listing a row under its deletion variants keeps every bucket exactly the rows with that variant, in row order |
| `DeletionIndex.MatchShares` | crates/anonymize-core/src/gazetteer.rs:840-880 | with the distance chosen from the length summary, span and row of every match have a variant in common |
| `DeletionIndex.LookupIsLinearScan` | crates/anonymize-core/src/gazetteer.rs:840-880 | looked up with that distance, the index returns exactly the linear scan: nothing lost, nothing invented, same order |
| `DeletionIndex.SkippedSpansMatchNothing` | crates/anonymize-core/src/gazetteer.rs:791-812 | a span whose length the summary rules out, or that is longer than every pattern, matches no row |
| `DeletionIndex.FuzzyIndex.AddFuzzy` | crates/anonymize-core/src/gazetteer.rs:518-551 | appends a row that a scan finds for exactly the spans that misspell the entry by no more edits than it allows, keeps rows, buckets and length summary in agreement, and raises the longest reach to that of an indexed row |
| `DeletionIndex.FuzzyIndex.ListVariants` | crates/anonymize-core/src/gazetteer.rs:529-536 | appends the row to the bucket of each of its variants and to no other |
| `DeletionIndex.FuzzyIndex.Candidates` | crates/anonymize-core/src/gazetteer.rs:848-862 | collects exactly the rows listed under some variant, with one counted lookup per variant |
| `DeletionIndex.FuzzyIndex.Retain` | crates/anonymize-core/src/gazetteer.rs:863-879 | keeps, in order, exactly the candidates within their own distance and token count, with one counted check per candidate |
| `DeletionIndex.FuzzyIndex.FuzzyRowsFor` | crates/anonymize-core/src/gazetteer.rs:840-880 | returns, ascending and without repeats, the rows that share a variant with the span and match it; the counted steps are bounded by the choices of letters plus the rows that share a variant |
| `DeletionIndex.FuzzyIndex.MemoisedRows` | crates/anonymize-core/src/gazetteer.rs:809-816 | a remembered lookup answers as a fresh one would, and costs no step |
| `DeletionIndex.FuzzyIndex.PushFuzzyRows` | crates/anonymize-core/src/gazetteer.rs:786-836 | whatever was looked up before, the span's hits are the rows of the linear scan less those whose case shape does not fit; the steps are a constant plus one check per row that shares a variant |
| `DeletionIndex.FittingMeans` | crates/anonymize-core/src/gazetteer.rs:817-828 | of the rows found those stay, in order, that ask for no case shape or for one the span has |
| `JsonText.StringifyRoundTrip` | scripts/lib/bun-lock-workspace-versions.ts:69-72 | what `JSON.stringify` prints, `JSON.parse` reads back, for any UTF-16 units including lone surrogates |
| `JsonText.ScanFindsEnd` | scripts/lib/bun-lock-workspace-versions.ts:57-81 | the scan of a printed literal stops at its own closing quote, whatever follows |
| `LockfileLayouts.PrintedAs` | scripts/lib/bun-lock-workspace-versions.ts:166-168 | a printed unit is the short escape that stands for it, or else four small hexadecimal digits for a control or lone surrogate, or else itself |
| `LockfileLayouts.PlainTextPrinted` | scripts/lib/bun-lock-workspace-versions.ts:166-168 | text without quotes, backslashes, controls and surrogates is printed between quotes as it is |
| `LockfileParser.Parser.SkipTriviaHere` | scripts/lib/bun-lock-workspace-versions.ts:34-53 | moves the shared cursor over whitespace and both kinds of comments as the grammar does, and fails at the same place on an unterminated comment |
| `LockfileParser.Parser.ParseStringHere` | scripts/lib/bun-lock-workspace-versions.ts:55-82 | reads a literal with its span and decoded value, and moves the cursor behind it, or fails, as the grammar does |
| `LockfileParser.Parser.ParseValueHere` | scripts/lib/bun-lock-workspace-versions.ts:84-113 | reads any value as the grammar does and moves the cursor behind it |
| `LockfileParser.Parser.ParseElementsHere` | scripts/lib/bun-lock-workspace-versions.ts:91-103 | the loop over array elements, trailing comma included, agrees with the grammar |
| `LockfileParser.Parser.ParseObjectHere` | scripts/lib/bun-lock-workspace-versions.ts:115-139 | reads an object into the map of its last values per key, as the grammar does |
| `LockfileParser.Parser.ParseMembersHere` | scripts/lib/bun-lock-workspace-versions.ts:121-137 | the loop over members, trailing comma included, agrees with the grammar |
| `LockfileLayouts.LayoutParses` | scripts/lib/bun-lock-workspace-versions.ts:34-149 | every way of writing a tree down, with any whitespace and comments between its tokens, trailing commas or none, and any escapes in its strings, parses to that tree with the spans it was written at |
| `LockfileReadings.ParsesExactlyLayouts` | scripts/lib/bun-lock-workspace-versions.ts:34-149 | and nothing else parses: a text parses to a tree exactly when it is one of those ways |
| `LockfileNodes.LowerLooksUp` | scripts/lib/bun-lock-workspace-versions.ts:119-126 | looking a key up in the filled map finds the value of the last member with that key |
| `LockfileNodes.DifferentKeysApart` | scripts/lib/bun-lock-workspace-versions.ts:119-126 | literals under different keys of one object have disjoint spans |
| `LockfileSyntax.ValueLiteralsInOrder` | scripts/lib/bun-lock-workspace-versions.ts:55-139 | the recorded literal spans are pairwise disjoint, in text order, and each starts with a quote |
| `LockfileEdit.FileEdited` | scripts/lib/bun-lock-workspace-versions.ts:172-178 | replacing one recorded literal by a printed one parses to the same tree with that literal's value changed and all later spans moved |
| `LockfileTrees.FilesEdited` | scripts/lib/bun-lock-workspace-versions.ts:172-178 | so does splicing several recorded literals in turn, last span first |
| `LockfileSplices.OutsideKept` | scripts/lib/bun-lock-workspace-versions.ts:172-178 | every character outside the replaced spans survives, in order, at the place the splices move it to |
| `LockfileSplices.SplicesUndone` | scripts/lib/bun-lock-workspace-versions.ts:172-178 | putting the old values back leaves the source with each replaced literal printed by `JSON.stringify` |
| `LockfileSplices.UnchangedIsPrinted` | scripts/lib/bun-lock-workspace-versions.ts:172-178 | splices that change neither the text nor any span they replace printed what was there |
| `LockfileSync.KeyUnits` | scripts/lib/bun-lock-workspace-versions.ts:147-159 | the keys looked up are the units of the words `workspaces` and `version` |
| `LockfileSync.LookupAgrees` | scripts/lib/bun-lock-workspace-versions.ts:157-160 | the version found through the maps is the one the syntax tree has at that place |
| `LockfileSync.MismatchesMean` | scripts/lib/bun-lock-workspace-versions.ts:156-171 | a run reports exactly the listed workspaces whose version in the tree is not the expected one, or missing, with both versions |
| `LockfileSync.VersionsApart` | scripts/lib/bun-lock-workspace-versions.ts:156-170 | the version literals of different workspaces have disjoint spans |
| `LockfileSync.SpreadStacks` | scripts/lib/bun-lock-workspace-versions.ts:173-173 | replacements that do not meet, sorted by descending start, can be spliced one after another |
| `LockfileSync.SyncKeepsMeaning` | scripts/lib/bun-lock-workspace-versions.ts:24-180 | the output parses to the source's tree with exactly the listed version strings changed to the expected ones |
| `LockfileSync.ListedVersionSynced` | scripts/lib/bun-lock-workspace-versions.ts:156-179 | after a run every listed workspace with a version string has the expected version |
| `LockfileSync.SecondRunStable` | scripts/lib/bun-lock-workspace-versions.ts:24-180 | a second run returns the text unchanged and reports only entries with no writable version |
| `LockfileSync.OrderIsFree` | scripts/lib/bun-lock-workspace-versions.ts:156-179 | the text does not depend on the order in which the expected versions are listed |
| `LockfileSync.UpThenDownRestores` | scripts/lib/bun-lock-workspace-versions.ts:17-23 | a version-up run followed by a version-down run over the same workspaces, in any order, restores the original text exactly when the changed literals were in `JSON.stringify` form; the comment promises it for all |
| `LockfileEscapes.EscapeNotRestored` | scripts/lib/bun-lock-workspace-versions.ts:17-23 | a lockfile whose version is written with an escape is not restored by a version-up and a version-down run |
| `LockfileEscapes.EscapedLockfileParses` | scripts/lib/bun-lock-workspace-versions.ts:34-149 | that lockfile parses to a root whose only workspace has the version the escape stands for |
| `LockfileSync.SyncWorkspaceVersions` | scripts/lib/bun-lock-workspace-versions.ts:24-180 | the imperative run fails as the grammar and the two root checks do, and otherwise returns the spliced text and the reports |
| `LockfileSync.SpliceAll` | scripts/lib/bun-lock-workspace-versions.ts:172-178 | the splicing loop over slices computes the splices of the plan |
| `GapRules.SeparatorMarksMean` | crates/anonymize-core/src/gazetteer.rs:1192-1204 | the key of a separator is its distinct canonical punctuation marks, ascending |
| `GapRules.ObservedSeparatorMeans` | crates/anonymize-core/src/gazetteer.rs:1206-1218 | a separator can join two words exactly when it is not empty and holds at most one line break, a carriage return and line feed counting once; it is known by its marks and length |
| `GapRules.KeysMean` | crates/anonymize-core/src/gazetteer.rs:1168-1188 | a rule accepts exactly the separators whose marks are all its own; with more than three marks only bare whitespace or all of them |
| `GapRules.TermRulesAscend` | crates/anonymize-core/src/gazetteer.rs:1148-1164 | the rule of an entry's gap has the marks of that gap, with a comma where one is added, distinct and ascending, and allows as many characters as the gap or four |
| `GapRules.KeysAreFew` | crates/anonymize-core/src/gazetteer.rs:1166-1189 | a rule has one key per set of its marks, or two when there are more than three |
| `GapRules.SuitsMeansKey` | crates/anonymize-core/src/gazetteer.rs:1166-1189 | a gap's key is accepted by a rule exactly when the gap's set of marks suits the rule |
| `WordTrie.AllFactsMean` | crates/anonymize-core/src/gazetteer.rs:898-947 | the words, separators and terminals recorded for a list of entries are exactly those of some entry of the list |
| `WordTrie.FoundIsRun` | crates/anonymize-core/src/gazetteer.rs:973-1080 | the hits are exactly the runs of spelled words along a recorded path that end where an entry ends |
| `WordTrie.ReadingsAre` | crates/anonymize-core/src/gazetteer.rs:1128-1146 | a token is read as it stands, and once more without the numbers at its two ends when it holds more than numbers |
| `WordTrie.SeparatorParts` | crates/anonymize-core/src/gazetteer.rs:1206-1218 | the text between two offsets is a separator exactly when it is not empty and goes over at most two lines |
| `WordTrie.HitIsAround` | crates/anonymize-core/src/gazetteer.rs:327-338 | a hit of an entry begins before the first word by the entry's leading marks and ends behind the last by its trailing ones, where the text shows both up to canonical form, and carries the entry's label and spelling |
| `WordTrie.SpelledEntryIsFound` | crates/anonymize-core/src/gazetteer.rs:973-1080 | complete: wherever the text spells an inserted entry, with separators its own rules accept, the hit around those words and its edge punctuation is found |
| `WordTrie.JoinedEntryIsFound` | crates/anonymize-core/src/gazetteer.rs:973-1080 | the same by sets of marks: wherever a text spells an entry's words joined by gaps that suit the entry's own separators, its hit is found |
| `WordTrie.FoundIsExplained` | crates/anonymize-core/src/gazetteer.rs:973-1080 | a hit is found exactly when it stands around words of the text that spell an inserted entry's in order, each separator accepted by some entry that shares the words up to it |
| `WordTrie.MoreEntriesKeepHits` | crates/anonymize-core/src/gazetteer.rs:898-1080 | inserting more entries never removes a hit |
| `SequenceTrie.SequenceTrie.InternWord` | crates/anonymize-core/src/gazetteer.rs:949-961 | words with the same folding have one id, and each of them adds its spellings to it; a folding not seen before gets the next id |
| `SequenceTrie.SequenceTrie.InternGapKey` | crates/anonymize-core/src/gazetteer.rs:963-966 | separator keys are numbered in the order first seen |
| `SequenceTrie.SequenceTrie.AddChild` | crates/anonymize-core/src/gazetteer.rs:914-934 | the child under a word is made only if missing, and no known path changes its node |
| `SequenceTrie.SequenceTrie.AddSeparator` | crates/anonymize-core/src/gazetteer.rs:914-934 | a separator slot keeps the longest length any entry allowed |
| `SequenceTrie.SequenceTrie.InsertWord` | crates/anonymize-core/src/gazetteer.rs:898-947 | one word of an entry leaves the trie holding the facts with that word added |
| `SequenceTrie.SequenceTrie.Insert` | crates/anonymize-core/src/gazetteer.rs:898-947 | an inserted entry leaves the trie holding the facts with that entry added |
| `SequenceTrie.SequenceTrie.SlotAllows` | crates/anonymize-core/src/gazetteer.rs:1015-1080 | a separator slot answers as the recorded facts do |
| `SequenceTrie.SequenceTrie.WalkToken` | crates/anonymize-core/src/gazetteer.rs:1040-1078 | following one spelling of the next token adds exactly the hits reached through it, within the steps its readings allow |
| `SequenceTrie.SequenceTrie.Walk` | crates/anonymize-core/src/gazetteer.rs:1010-1080 | the walk from a node reports exactly the hits reached from its path; its steps are bounded by the words that may still follow |
| `WordTrie.PathIsPrefix` | crates/anonymize-core/src/gazetteer.rs:1010-1014 | every path a walk can be on spells the first words of an inserted entry, so none is longer than the longest entry |
| `SequenceTrie.SequenceTrie.NodeDepth` | crates/anonymize-core/src/gazetteer.rs:1010-1014 | no node lies deeper than the longest path, and from one that deep no separator leads on |
| `SequenceTrie.SequenceTrie.Hits` | crates/anonymize-core/src/gazetteer.rs:972-1005 | all hits of a text are exactly those defined by the facts of the entries, found in counted steps, one for every reading of a token at least and at most a constant per token, set by the longest entry and the readings of a spelling and not by how many entries there are |
| `SequenceTrie.IndexEntries` | crates/anonymize-core/src/gazetteer.rs:561-592 | indexing entries one after another gives the hits of the whole list |
| `SequenceTrie.EntriesBound` | crates/anonymize-core/src/gazetteer.rs:289-293 | entries of at most so many words, with at most so many readings of a spelling, bound every walk by those two numbers |
| `SequenceTrie.OneReading` | crates/anonymize-core/src/gazetteer.rs:289-297 | where no word has declined forms, a spelling has one reading however many entries share it |
| `Acronym.ExtendState` | crates/anonymize-core/src/coreference.rs:503-526 | one pass over a word's letters finds every end the word reaches from a state, and no other |
| `Acronym.GreedyStep` | crates/anonymize-core/src/coreference.rs:515-525 | matching greedily loses nothing: one more letter gives one more match exactly when some subsequence does |
| `Acronym.AllStates` | crates/anonymize-core/src/coreference.rs:499-528 | after each word the states are exactly the consumed lengths and word counts that some cut reaches |
| `Acronym.OneWordMore` | crates/anonymize-core/src/coreference.rs:500-527 | a cut with one more word leaves it unused or gives it the last piece |
| `Acronym.WordsAreStretches` | crates/anonymize-core/src/coreference.rs:535-559 | the words of a name are, in text order, all its maximal stretches of at least two characters without a parting character |
| `Acronym.HasCompactOrganizationSimilarity` | crates/anonymize-core/src/coreference.rs:486-533 | accepts exactly when the alias passes the shape test and can be cut into at least two consecutive pieces taken from words in order, each starting with its word's first letter and going on as a subsequence |
| `SpanIndexes.BuildCoverage` | crates/anonymize-core/src/gazetteer.rs:1098-1117 | each slot holds the largest end among the spans up to it |
| `SpanIndexes.CoversIsScan` | crates/anonymize-core/src/gazetteer.rs:1119-1126 | the prefix-maximum lookup answers as a scan for a containing span does |
| `SpanIndexes.NewSpanIndex` | crates/anonymize-core/src/gazetteer.rs:1098-1126 | the index of unsorted hits answers every containment question as a scan of the hits does |
| `ContainedHits.CoveringHits` | crates/anonymize-core/src/gazetteer.rs:1592-1608 | the pass over the sorted hits collects exactly the covered ones |
| `ContainedHits.WithoutContained` | crates/anonymize-core/src/gazetteer.rs:1577-1614 | returns the fuzzy hits that are not covered, in order |
| `ContainedHits.DroppedIffCovered` | crates/anonymize-core/src/gazetteer.rs:1577-1614 | a fuzzy hit is dropped exactly when it is covered |
| `ContainedHits.DroppedIffContained` | crates/anonymize-core/src/gazetteer.rs:1575-1614 | a fuzzy hit that does not end at offset 0, as the whole-word guard of lines 1829-1833 has it, is dropped exactly when another hit of its label contains it |
| `ContainedHits.CoverageKept` | crates/anonymize-core/src/gazetteer.rs:1575-1614 | the offsets covered by each label's exact and fuzzy hits are the same before and after |
| `Markers.MarkerSpans` | crates/anonymize-core/src/gazetteer_policy.rs:195-247 | the one-pass scan with a stack returns the outermost balanced markers of the recursive reading, and its work grows by at most twice the text's length |
| `Markers.FindMarkers` | crates/anonymize-core/src/gazetteer_policy.rs:181-187 | both kinds are scanned apart, with work of at most four times the length in all |
| `Markers.OutermostAreMarkers` | crates/anonymize-core/src/gazetteer_policy.rs:188-194 | the markers are sorted and disjoint, each an opener and the first own closer behind balanced content |
| `Markers.BalancedDoesNotBreak` | crates/anonymize-core/src/gazetteer_policy.rs:188-194 | balanced content holds no character that breaks the kind of marker |
| `Markers.ClosedStretch` | crates/anonymize-core/src/gazetteer_policy.rs:214-236 | a closed marker holds no break from its opener to behind its closer |
| `Markers.OpenKeepsRemaining` | crates/anonymize-core/src/gazetteer_policy.rs:237-242 | pushing an opener does not change what the scan has still to report |
| `Markers.CloseKeepsRemaining` | crates/anonymize-core/src/gazetteer_policy.rs:227-236 | popping at the innermost closer reports the pair exactly when the stack runs empty |
| `Markers.CloseIsDrop` | crates/anonymize-core/src/gazetteer_policy.rs:195-247 | inside an opaque marker the matching closer is where the nesting depth first drops |
| `Markers.OpaqueMarkersAreExcursions` | crates/anonymize-core/src/gazetteer_policy.rs:195-247 | opaque markers are exactly the excursions of the clamped nesting depth from zero back to zero |
| `ReportedMarkers.CloseIsExact` | crates/anonymize-core/src/gazetteer_policy.rs:214-236 | for either kind the matching closer is exactly the one behind balanced content that does not hold it |
| `ReportedMarkers.Misaligned` | crates/anonymize-core/src/gazetteer_policy.rs:237-242 | where an opener's characters run on, reading from its second character meets the same closer or the one before |
| `ReportedMarkers.InnerCloses` | crates/anonymize-core/src/gazetteer_policy.rs:214-242 | every opener that begins inside a closed marker is closed, and no later |
| `ReportedMarkers.ReportedExactly` | crates/anonymize-core/src/gazetteer_policy.rs:188-247 | for either kind a span is reported exactly when it is a balanced pair that begins inside no other and has no unclosed opener before it since the last break |
| `Markers.EnclosesIsScan` | crates/anonymize-core/src/gazetteer_policy.rs:256-266 | the binary search answers as a scan of all spans does, for any start at or before the end |
| `Markers.OpaqueWins` | crates/anonymize-core/src/gazetteer_policy.rs:145-158 | the kind found is opaque when any opaque marker encloses the span, else template when a template does |
| `HeaderScan.ByteOffsetAtUtf16Cutoff` | crates/anonymize-core/src/address_context.rs:718-731 | the walk stops at the first boundary that has the units before it or stands at or behind the line limit |
| `HeaderScan.HeaderEnd` | crates/anonymize-core/src/address_context.rs:671-716 | the early-exit scan returns the defined header end on every text |
| `HeaderScan.DominatedBoundary` | crates/anonymize-core/src/address_context.rs:698-709 | once 15 percent of a prefix reach its own cutoff, the whole text's boundary is the one the prefix gives, and lies in it |
| `HeaderScan.NoSuffixMatters` | crates/anonymize-core/src/address_context.rs:698-709 | no suffix changes the header of a prefix that dominates |
| `HeaderScan.StopIsBoundary` | crates/anonymize-core/src/address_context.rs:1140-1160 | with the byte behind line 200 as limit, or none while the cutoff comes first, the stop is the reference's boundary |
| `ByteOffsets.ValidateOffset` | crates/anonymize-core/src/byte_offsets.rs:17-27 | succeeds exactly at character boundaries, and tells offsets past the end from those inside a character |
| `ByteOffsets.Slice` | crates/anonymize-core/src/byte_offsets.rs:46-58 | succeeds exactly for ordered boundaries, with the text that parts what is before the one from what is before the other |
| `ByteOffsets.Utf16UnitsBetween` | crates/anonymize-core/src/byte_offsets.rs:60-80 | succeeds for any ordered 32-bit boundaries with the difference of the units before them, which is at most the bytes between and at least a third of them |
| `ByteOffsets.FloorOffset` | crates/anonymize-core/src/byte_offsets.rs:29-40 | the largest boundary at or before the offset, without error |
| `ByteOffsets.OffsetAfterUtf16Units` | crates/anonymize-core/src/byte_offsets.rs:82-103 | on any text the furthest boundary forward within the units, or the error of the validation or of an offset past 32 bits |
| `ByteOffsets.OffsetBeforeUtf16Units` | crates/anonymize-core/src/byte_offsets.rs:105-128 | on any text the furthest boundary backward within the units, or the validation error |
| `ByteOffsets.FurthestIsAfter` | crates/anonymize-core/src/byte_offsets.rs:82-103 | the saturating counter makes no difference to the forward walk where offsets fit 32 bits |
| `ByteOffsets.AfterMeans` | crates/anonymize-core/src/byte_offsets.rs:82-103 | going forward reaches exactly the boundaries within the distance |
| `ByteOffsets.BeforeMeans` | crates/anonymize-core/src/byte_offsets.rs:105-128 | going back reaches exactly the boundaries within the distance |
| `ByteOffsets.ReachIsMutual` | crates/anonymize-core/src/byte_offsets.rs:82-128 | the two walks are adjoint: one boundary is within forward reach of another exactly when that one is within backward reach of it |
| `Proximity.FromEntities` | crates/anonymize-core/src/address_context.rs:114-122 | two copies of the entities, one by start and then end, one by end and then start |
| `Proximity.GapIsTextBetween` | crates/anonymize-core/src/address_context.rs:875-899 | the gap of two ordered spans is the number of units strictly between them, nothing when they overlap, and never an error at boundaries; the two tests compare it with the window |
| `Proximity.NearbyEntities.Next` | crates/anonymize-core/src/address_context.rs:79-91 | hands out the next entity in the byte range, or none when none is left |
| `Proximity.NearbyCounts` | crates/anonymize-core/src/address_context.rs:140-172 | a walk hands out every entity in the byte range as often as it occurs, whichever half-space it walks |
| `Proximity.SmallerHalf` | crates/anonymize-core/src/address_context.rs:140-172 | the half-space that is walked is no larger than the other |
| `Proximity.DistanceInRange` | crates/anonymize-core/src/address_context.rs:140-148 | an entity no further than the window in units lies in the byte range of three bytes per unit exactly when it does not both end before the query and start behind the range |
| `Proximity.IndexIsExact` | crates/anonymize-core/src/address_context.rs:128-172 | the near entities among those handed out are the near entities of the whole list, with repetitions, exactly when no near one both ends before the query and starts behind the byte range |
| `Proximity.OrderedIndexIsExact` | crates/anonymize-core/src/address_context.rs:128-172 | so they always are for a query and entities that do not end before they start, which are those that occur |
| `Proximity.IsWithinContextWindow` | crates/anonymize-core/src/address_context.rs:128-138 | true exactly when some entity is closer than the window and not, ending before the query, started behind the byte range |
| `Proximity.ByteTestsAgree` | crates/anonymize-core/src/address_context.rs:901-910 | the byte test made without the index is the index's byte test |
| `ScanRanges.MergeScanRanges` | crates/anonymize-core/src/address_context.rs:594-609 | merged ranges are separated, contain every range, and hold exactly the offsets some range held |
| `OffsetMaps.NewUtf16OffsetMap` | crates/anonymize-adapter-contract/src/offsets.rs:12-34 | builds the ASCII shortcut or the boundary table, and fails exactly when the bytes do not fit 32 bits |
| `OffsetMaps.BisectFinds` | crates/anonymize-adapter-contract/src/offsets.rs:45-49 | binary search over a strictly rising column finds the entry |
| `OffsetMaps.AsciiShortcut` | crates/anonymize-adapter-contract/src/offsets.rs:13-17 | the shortcut answers as the boundary table does, in both directions and for every offset |
| `OffsetMaps.Utf16MapTranslates` | crates/anonymize-adapter-contract/src/offsets.rs:36-71 | each direction translates exactly the boundaries and refuses every other offset |
| `OffsetMaps.Utf16RoundTrip` | crates/anonymize-adapter-contract/src/offsets.rs:36-71 | the two directions are inverse to each other |
| `OffsetMaps.NewCharacterOffsetMap` | crates/anonymize-adapter-contract/src/offsets.rs:79-95 | builds the boundary table, and fails exactly when the bytes do not fit 32 bits |
| `OffsetMaps.CharacterRoundTrip` | crates/anonymize-adapter-contract/src/offsets.rs:97-129 | the two directions translate exactly the boundaries, and back again |
| `BoundarySweep.Sweep.RecordRequestedBoundary` | crates/anonymize-adapter-contract/src/external_detection.rs:394-414 | a request at the boundary is resolved once; a request that lies before it fails the sweep |
| `BoundarySweep.BetweenBoundaries` | crates/anonymize-adapter-contract/src/external_detection.rs:407-413 | an offset strictly between neighbouring boundaries is no boundary in the unit |
| `BoundarySweep.ResolveRequestedBoundaries` | crates/anonymize-adapter-contract/src/external_detection.rs:336-392 | succeeds exactly when every requested offset is a boundary in the input unit with a 32-bit byte offset, and resolves each to its three offsets |
| `BoundarySweep.ResolvedCoordinate` | crates/anonymize-adapter-contract/src/external_detection.rs:394-414 | the coordinate of a resolved offset in the unit it was given in is the request, and the others are those of the same boundary |
| `BoundarySweep.SweepAgreesWithMaps` | crates/anonymize-adapter-contract/src/external_detection.rs:336-415 | a resolved offset carries the coordinates that both dense maps give, in both directions |
| `BoundarySweep.ConvertDetections` | crates/anonymize-adapter-contract/src/external_detection.rs:207-258 | succeeds exactly when ids are distinct, labels are mapped, and every span has ordered boundaries; spans keep their boundaries |
| `BoundarySweep.OrderKept` | crates/anonymize-adapter-contract/src/external_detection.rs:238-245 | offsets are ordered in bytes exactly as in the unit they were given in |
| `Normalize.NormalizeForSearch` | crates/anonymize-core/src/normalize.rs:32-49 | the text with every look-alike replaced, whether or not there is one |
| `Normalize.LookAlikesReplaced` | crates/anonymize-core/src/normalize.rs:511-518 | three spaces, two dashes and two quotation marks become their ASCII look-alikes and nothing else changes |
| `Normalize.ByteMap.SetBoundary` | crates/anonymize-core/src/normalize.rs:90-101 | grows the map with marked slots up to the offset and stores the original offset there |
| `Normalize.NormalizeForSearchWithByteMap` | crates/anonymize-core/src/normalize.rs:51-88 | returns the normalised text with its map, or none when nothing is replaced; fails exactly when a replaced text's bytes do not fit 32 bits |
| `Normalize.BoundarySlot` | crates/anonymize-core/src/normalize.rs:70-82 | the slot of every normalised boundary holds the matching original boundary |
| `Normalize.OtherSlot` | crates/anonymize-core/src/normalize.rs:90-101 | every other slot says that no character starts there |
| `Normalize.OffsetMaps` | crates/anonymize-core/src/normalize.rs:103-114 | a normalised offset maps to an original one exactly when both are the same boundary and the original is not the marker value |
| `Normalize.MappedOffsetsRise` | crates/anonymize-core/src/normalize.rs:103-114 | mapped offsets rise strictly |
| `Normalize.SpanMaps` | crates/anonymize-core/src/normalize.rs:15-29 | a span with a map is accepted exactly when it is ordered and both ends are boundaries not lost to the marker value |
| `Normalize.NoBoundaryLost` | crates/anonymize-core/src/normalize.rs:103-114 | below 4294967295 bytes no boundary is lost to the marker value |
| `Normalize.LastBoundaryLost` | crates/anonymize-core/src/normalize.rs:103-114 | in a replaced text of exactly 4294967295 bytes the end of the text is refused |
| `Normalize.MappedSliceNormalizes` | crates/anonymize-core/src/normalize.rs:15-29 | normalising the original slice of a mapped span gives the normalised slice |
| `Normalize.NormalizedTwice` | crates/anonymize-core/src/normalize.rs:32-49 | normalising twice is normalising once |
| `PlaceholderText.CollapseWhitespace` | crates/anonymize-core/src/normalize.rs:174-195 | each run of whitespace becomes one underscore |
| `PlaceholderText.UppercaseInParts` | crates/anonymize-core/src/normalize.rs:122-125 | upper-casing goes character by character, in order |
| `PlaceholderText.PrintedInjective` | crates/anonymize-core/src/placeholders.rs:73-73 | a printed placeholder determines its label key and its number, whatever the key holds |
| `PlaceholderText.DigitsReadBack` | crates/anonymize-core/src/placeholders.rs:73-73 | the digits printed for a number are read back as that number |
| `PlaceholderText.PrintedIsRecognised` | crates/anonymize-core/src/placeholders.rs:131-155 | the recogniser accepts a printed placeholder exactly when its key is not empty and holds no bracket or whitespace |
| `PlaceholderText.PlaceholderAtMeans` | crates/anonymize-core/src/placeholders.rs:131-155 | what is recognised in a text are exactly the places that show a printed placeholder whose key is not empty and holds no bracket or whitespace |
| `PlaceholderText.ReservedPlaceholderSpans` | crates/anonymize-core/src/placeholders.rs:101-129 | one pass reports exactly the recognised placeholders of any text, in order |
| `PlaceholderText.CollectReservedPlaceholders` | crates/anonymize-core/src/placeholders.rs:83-99 | the reserved set is exactly the recognised placeholders, and no larger than the text |
| `PlaceholderText.PrintedIsReserved` | crates/anonymize-core/src/placeholders.rs:83-129 | a placeholder is reserved exactly when it occurs as a substring and its key is plain and not empty |
| `PlaceholderText.UnrecognisedStandsFree` | crates/anonymize-core/src/placeholders.rs:131-155 | with any other key the text that is the placeholder reserves nothing |
| `Placeholders.PlaceholderMap.GetEntity` | crates/anonymize-core/src/types.rs:541-568 | finds the first entry of an entity with that label, text and source |
| `Placeholders.NextPlaceholder` | crates/anonymize-core/src/placeholders.rs:64-81 | the next number that is not reserved, every number skipped being reserved; the search ends when some number up to the counter's limit is left |
| `Placeholders.BuildPlaceholderMap` | crates/anonymize-core/src/placeholders.rs:14-49 | where every identity can have a number of its own, allocates one entry per distinct entity in order of first start, with one 32-bit number per identity and label key, gapless but for reserved ones, rising in that order, none reserved |
| `Placeholders.AllocationNeedsNumbers` | crates/anonymize-core/src/placeholders.rs:64-81 | no such allocation exists when some label key has more identities than 32-bit numbers that are not reserved |
| `Placeholders.SizesSuffice` | crates/anonymize-core/src/placeholders.rs:14-49 | there are enough numbers when entities and reserved placeholders together are at most 4294967295 |
| `Placeholders.SharedIffSameIdentity` | crates/anonymize-core/src/placeholders.rs:51-62 | entities share a placeholder exactly when label key and normalised text agree |
| `Placeholders.SharedMeans` | crates/anonymize-core/src/placeholders.rs:51-62 | in terms of entities: they share a placeholder exactly when their labels have one key and their texts, for an alias its source, one normal form |
| `Placeholders.PlainKeysAreFresh` | crates/anonymize-core/src/placeholders.rs:14-49 | no placeholder with a plain, non-empty label key occurs anywhere in the text it was made for |
| `Placeholders.OtherKeysAreNot` | crates/anonymize-core/src/placeholders.rs:14-49 | with any other label key there is a text that contains the placeholder handed out for it |
| `Placeholders.LabelKeyIsPlain` | crates/anonymize-core/src/normalize.rs:122-125 | a label key is plain exactly when the upper-cased label holds no bracket, and empty only when that is empty |
| `SessionPlans.PlanSessionRedactions` | crates/anonymize-binding-core/src/lib.rs:869-902 | plans on a copy: the session is untouched, the plan holds base, outcome and results of the batch, and the first failure is returned |
| `SessionPlans.BatchOfOne` | crates/anonymize-binding-core/src/lib.rs:880-892 | a batch of one input is that redaction |
| `SessionPlans.BatchInParts` | crates/anonymize-binding-core/src/lib.rs:880-892 | a batch is its first part and then, unless that fails, the rest on the session the first part leaves, with the results in order |
| `SessionPlans.PlanThenCommit` | crates/anonymize-binding-core/src/lib.rs:686-902 | a plan committed at once leaves the session as its batch does; a plan whose batch fails is not made |
| `SessionPlans.PreparedSessionPlan.Commit` | crates/anonymize-binding-core/src/lib.rs:706-720 | installs the plan once on an unchanged target, and otherwise reports which check failed and changes nothing |
| `SessionPlans.EffectiveOnce` | crates/anonymize-binding-core/src/lib.rs:706-720 | in any history a plan takes effect at most once, whichever sessions it is committed to |
| `SessionPlans.FailedCommitChangesNothing` | crates/anonymize-binding-core/src/lib.rs:706-720 | a commit that takes no effect leaves sessions and plans as they were |
| `SessionPlans.RetrySucceeds` | crates/anonymize-binding-core/src/lib.rs:706-720 | a commit takes effect exactly when the plan is unused and the session equals its base |
| `SessionPlans.RunKeepsPlansMade` | crates/anonymize-binding-core/src/lib.rs:686-720 | at every point of a history each unused plan is the outcome of its batch on its base |
| `SessionPlans.Serialisable` | crates/anonymize-binding-core/src/lib.rs:686-902 | any history leaves each session as if its batches and other changes had run on it one after another in effect order, with the same results |
| `SessionInputs.SessionCallerInputs.PushUtf16BindingJson` | crates/anonymize-binding-core/src/lib.rs:576-628 | takes an input exactly when it is valid and the batch stays within every limit, and otherwise changes nothing and reports the first complaint with its measured size |
| `SessionInputs.InputsGrow` | crates/anonymize-binding-core/src/lib.rs:592-603 | the running totals, comma included, are those of the JSON array of all inputs |
| `SeedClusters.ClusterSeeds` | crates/anonymize-core/src/address_seeds.rs:2267-2341 | the clusters concatenate to the seeds and are cut exactly at the separations, with run and left growth set by the kind of separation |
| `SeedClusters.BoundsAreHull` | crates/anonymize-core/src/address_seeds.rs:2293-2320 | on sorted seeds a cluster's bounds are the hull of its seeds |
| `SeedClusters.RunsMeetAtEntities` | crates/anonymize-core/src/address_seeds.rs:2300-2335 | neighbouring clusters share a run exactly when they are near and only an entity stands between them; otherwise the next one begins a run and may not grow to the left |
| `SeedClusters.RunsRiseByOne` | crates/anonymize-core/src/address_seeds.rs:2312-2335 | run numbers never fall and rise by at most one per cluster |
| `SeedClusters.NoRunSkipped` | crates/anonymize-core/src/address_seeds.rs:2312-2335 | every run number up to the last belongs to some cluster |
| `SeedClusters.CollectIsKinds` | crates/anonymize-core/src/address_seeds.rs:2929-2935 | the collected bits are the kinds that occur |
| `SeedClusters.SufficientIsTwoKinds` | crates/anonymize-core/src/address_seeds.rs:2946-2949 | two set bits are two different kinds |
| `SeedClusters.RunEvidence` | crates/anonymize-core/src/address_seeds.rs:2979-2995 | the evidence of each run is exactly the kinds of all its clusters |
| `SeedClusters.RescuedIffRunHasTwoKinds` | crates/anonymize-core/src/address_seeds.rs:479-512 | a cluster is accepted on evidence exactly when its run holds two kinds, so a weak fragment is rescued exactly then |
| `SeedWindows.WindowIsDistance` | crates/anonymize-core/src/address_seeds.rs:2507-2526 | the two byte tests change no answer of the distance test |
| `SeedWindows.SeedOrder` | crates/anonymize-core/src/address_seeds.rs:1110-1116 | seeds are ordered by start, then by end, then by kind |
| `SeedWindows.WindowIsScan` | crates/anonymize-core/src/address_seeds.rs:1118-1131 | asking the byte window answers as asking every seed |
| `SeedWindows.CoverageIsScan` | crates/anonymize-core/src/address_seeds.rs:1043-1068 | the frozen coverage index answers as a scan of the seeds |
| `SeedWindows.MergeSortedStarts` | crates/anonymize-core/src/address_seeds.rs:1535-1555 | the merge holds exactly the elements of both lists, no two neighbours alike, and of two sorted lists is strictly ascending |
| `PostalSeeds.CollectPostalCodeSeeds` | crates/anonymize-core/src/address_seeds.rs:630-689 | the collection against the frozen index and the byte windows adds what each candidate adds when held against the first seeds |
| `PostalSeeds.CandidateSeeds` | crates/anonymize-core/src/address_seeds.rs:643-687 | one candidate's tests through index and windows decide as scans of all seeds do |
| `PostalSeeds.WindowContexts` | crates/anonymize-core/src/address_seeds.rs:691-719 | both context tests answer the same on the window as on all seeds |
| `PostalSeeds.DigitsBehindPlaceTaken` | crates/anonymize-core/src/address_seeds.rs:691-719 | five digits are taken as a postal code when a city or a state stands within the window in front of them with only whitespace and commas between |
| `PostalSeeds.DigitsByPlaceTaken` | crates/anonymize-core/src/address_seeds.rs:691-719 | five digits are also taken when a city or a state touches them or starts at most four bytes behind them |
| `PostalSeeds.NineDigitsBehindCityTaken` | crates/anonymize-core/src/address_seeds.rs:691-719 | nine digits are taken as a postal code when a city stands so in front of them |
| `PostalSeeds.LoneDigitsNotTaken` | crates/anonymize-core/src/address_seeds.rs:691-719 | five digits with nothing but other postal codes, streets without house numbers and places elsewhere in the window are not |
| `PostalSeeds.LoneNineDigitsNotTaken` | crates/anonymize-core/src/address_seeds.rs:691-719 | nine digits with no state of their own, no city in front of them and nothing else in the window that speaks for them are not taken |
| `PostalSeeds.EarlierSeedIsIdle` | crates/anonymize-core/src/address_seeds.rs:634-640 | what one candidate adds covers no candidate behind it and gives it no context; only a postal code can cover the state in front of it |
| `PostalSeeds.RescannedIsKept` | crates/anonymize-core/src/address_seeds.rs:3935-3980 | rescanning the growing list adds what the frozen index adds, less every state inside an earlier candidate that was taken |
| `PostalSeeds.FrozenIsRescanned` | crates/anonymize-core/src/address_seeds.rs:630-689 | frozen index and rescan give the same multiset of seeds exactly when no candidate whose state is added has that state inside an earlier candidate that passes its own tests against the first seeds |
| `PostalSeeds.LettersAreNotHidden` | crates/anonymize-core/src/address_seeds.rs:1571-1588 | that holds whenever states start with a character that no candidate contains |
| `PostalSeeds.DigitStateHidden` | crates/anonymize-core/src/address_seeds.rs:634-640 | with a state abbreviation made of digits the two differ |

## Left out

- DeletionIndex.FuzzyIndex.PushFuzzyRows: which windows of a text are re-checked (`anchored_spans`) is not modelled; its reach is a cap in characters and promises no completeness.
- SequenceTrie.SequenceTrie.Insert: tokenising a text, splitting a term into words and the person-name and legal-form variants of an entry are not modelled; tokens and split entries are inputs. The counter of steps is unbounded here and saturates at 64 bits in the source.
- Markers.MarkerSpans: positions count characters where the source counts bytes; byte offsets rise strictly with characters (`Text.WidthsRise`), so order, disjointness and containment carry over. The glue and identifier-segment tests of the same file are branch lists and are left out.
- PlaceholderText.ReservedPlaceholderSpans: positions count characters, for the same reason.
- WordTrie.FoundIsRun: tokens, spellings and hits of a `WordTrie.Document` are cut by characters, as are those of `SequenceTrie`, for the same reason. The length of a gap counts characters in the source too.
- Acronym.HasCompactOrganizationSimilarity: the other similarity tests, the search for alias spans and the spreading of organization names are left out.
- HeaderScan.HeaderEnd: the extension of the header to the next line break, and the saturation of 64-bit counters on texts of more than 10^17 units, are not modelled.
- Placeholders.BuildPlaceholderMap: stated where the numbers do not run out; past that the saturated counter either finds its last number reserved and loops for ever, or hands that number out again. How texts are normalised by label is a parameter.
- PostalSeeds.FrozenIsRescanned: the regular expressions are parameters; what is taken from them is that candidates come in order without overlap, start with no space or comma, and that a state is parted from its ZIP code by spaces and commas only.
- SeedClusters.RescuedIffRunHasTwoKinds: the numeric scores, and the score of a bare street, are left out.
- BoundarySweep.ConvertDetections: decoding the batch, checking the label map and the document's digest, and the wording of errors are left out.
- SessionPlans.Serialisable: what a redaction does to a session is a parameter; the locks of the host runtimes are modelled by taking each operation as one step.
- Matching engines (regular expressions, literal and fuzzy automata), Unicode tables, vocabularies, floating-point scores, date and money heuristics, archives, encryption, configuration conversion, diagnostics, bindings and build scripts are not part of this model.
- Compound street seeds, Italian postal codes, street-number candidates and the expansion of clusters to entities are left out: they repeat the index and window arguments or are branch lists.

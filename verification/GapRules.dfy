/**
  Separators between the words of an entry: the marks seen in the text, and the keys of the
  separators an entry accepts.
 */
module GapRules {
  import opened Common

  const MAX_WORD_GAP_CHARS := 4
  const MAX_SUBSET_PUNCTUATION := 3

  /** The character tables separators are read with. */
  datatype Marks = Marks(isWhitespace: char -> bool, canonical: char -> char)

  /** Ascending marks that may stand in a separator, and how many characters it may have. */
  datatype GapRule = GapRule(punctuation: string, maxChars: nat)

  ghost predicate StrictlyAscending(s: string) {
    forall i, j :: 0 <= i < j < |s| ==> s[i] < s[j]
  }

  /** Places `c` among ascending marks, once. */
  function AddMark(marks: string, c: char): string {
    if marks == [] || c < marks[0] then [c] + marks
    else if c == marks[0] then marks
    else [marks[0]] + AddMark(marks[1..], c)
  }

  lemma {:induction false} AddMarkSorted(marks: string, c: char)
    requires StrictlyAscending(marks)
    ensures StrictlyAscending(AddMark(marks, c))
    ensures forall x :: x in AddMark(marks, c) <==> x in marks || x == c
  {
    if marks != [] && c > marks[0] {
      AddMarkSorted(marks[1..], c);
      var rest := AddMark(marks[1..], c);
      forall j | 0 <= j < |rest| ensures marks[0] < rest[j] {
        assert rest[j] in rest;
      }
    }
  }

  /** The canonical forms of all characters of `gap` but whitespace, ascending, each once. */
  function SeparatorMarks(m: Marks, gap: string): string {
    if gap == [] then []
    else
      var c := gap[|gap| - 1];
      var before := SeparatorMarks(m, gap[..|gap| - 1]);
      if m.isWhitespace(c) then before else AddMark(before, m.canonical(c))
  }

  lemma {:induction false} SeparatorMarksMean(m: Marks, gap: string)
    ensures StrictlyAscending(SeparatorMarks(m, gap))
    ensures forall x :: x in SeparatorMarks(m, gap) <==>
      exists i :: 0 <= i < |gap| && !m.isWhitespace(gap[i]) && m.canonical(gap[i]) == x
  {
    if gap != [] {
      var n := |gap| - 1;
      SeparatorMarksMean(m, gap[..n]);
      if !m.isWhitespace(gap[n]) { AddMarkSorted(SeparatorMarks(m, gap[..n]), m.canonical(gap[n])); }
      forall x
        ensures x in SeparatorMarks(m, gap) <==>
          exists i :: 0 <= i < |gap| && !m.isWhitespace(gap[i]) && m.canonical(gap[i]) == x
      {
        if x in SeparatorMarks(m, gap[..n]) {
          var i :| 0 <= i < n && !m.isWhitespace(gap[..n][i]) && m.canonical(gap[..n][i]) == x;
          assert gap[i] == gap[..n][i];
        }
        if exists i :: 0 <= i < |gap| && !m.isWhitespace(gap[i]) && m.canonical(gap[i]) == x {
          var i :| 0 <= i < |gap| && !m.isWhitespace(gap[i]) && m.canonical(gap[i]) == x;
          if i < n { assert gap[..n][i] == gap[i]; }
        }
      }
    }
  }

  function FromTermGap(m: Marks, gap: string): GapRule {
    GapRule(SeparatorMarks(m, gap), Max(|gap|, MAX_WORD_GAP_CHARS))
  }

  function WithComma(rule: GapRule): GapRule {
    rule.(punctuation := AddMark(rule.punctuation, ','))
  }

  predicate IsLineBreak(c: char) {
    c == '\n' || c == '\r' || c == '\U{2028}' || c == '\U{2029}'
  }

  /** Line breaks of a separator; a carriage return and line feed count once. */
  function LineBreaks(gap: string): nat {
    if gap == [] then 0
    else
      var n := |gap| - 1;
      LineBreaks(gap[..n])
      + (if IsLineBreak(gap[n]) && !(gap[n] == '\n' && n > 0 && gap[n - 1] == '\r') then 1 else 0)
  }

  /** The marks of `gap` and its size, unless it is empty or breaks the line twice. */
  function ObservedSeparator(m: Marks, gap: string): Option<(string, nat)> {
    if gap != [] && LineBreaks(gap) <= 1 then Some((SeparatorMarks(m, gap), |gap|)) else None
  }

  /** A line break starts at `i`; the line feed of a pair does not start another. */
  predicate BreakAt(gap: string, i: nat) {
    i < |gap| && gap[i] in {'\n', '\r', '\U{2028}', '\U{2029}'} && !(gap[i] == '\n' && i > 0 && gap[i - 1] == '\r')
  }

  lemma {:induction false} LineBreaksMean(gap: string)
    ensures LineBreaks(gap) == 0 <==> forall i: nat :: !BreakAt(gap, i)
    ensures LineBreaks(gap) <= 1 <==> forall i: nat, j: nat :: i < j ==> !(BreakAt(gap, i) && BreakAt(gap, j))
  {
    if gap != [] {
      var n: nat := |gap| - 1;
      LineBreaksMean(gap[..n]);
      forall i: nat ensures BreakAt(gap, i) <==> BreakAt(gap[..n], i) || (i == n && BreakAt(gap, n)) {}
      assert LineBreaks(gap) == LineBreaks(gap[..n]) + (if BreakAt(gap, n) then 1 else 0);
      if !(forall i: nat :: !BreakAt(gap[..n], i)) {
        var i: nat :| BreakAt(gap[..n], i);
        assert BreakAt(gap, i) && i < n;
      }
      if LineBreaks(gap[..n]) > 1 {
        var i: nat, j: nat :| i < j && BreakAt(gap[..n], i) && BreakAt(gap[..n], j);
        assert BreakAt(gap, i) && BreakAt(gap, j);
      }
    }
  }

  /** A separator can join two words exactly when it is not empty and holds at most one line break;
      it is then known by its marks and its length. */
  lemma ObservedSeparatorMeans(m: Marks, gap: string, key: string, chars: nat)
    ensures ObservedSeparator(m, gap) == Some((key, chars))
       <==> gap != [] && chars == |gap| && key == SeparatorMarks(m, gap)
            && forall i: nat, j: nat :: i < j ==> !(BreakAt(gap, i) && BreakAt(gap, j))
  {
    hide LineBreaks, BreakAt;
    LineBreaksMean(gap);
  }

  // ---------- keys ----------

  function Pow2(n: nat): nat {
    if n == 0 then 1 else 2 * Pow2(n - 1)
  }

  /** The marks whose bit is set in `mask`, in order. */
  function Select(marks: string, mask: nat): string {
    if marks == [] then []
    else (if mask % 2 == 1 then [marks[0]] else []) + Select(marks[1..], mask / 2)
  }

  /** All subsets of the rule's marks while those are few; just the empty and the whole set otherwise. */
  function Keys(rule: GapRule): seq<string> {
    if |rule.punctuation| > MAX_SUBSET_PUNCTUATION then ["", rule.punctuation]
    else seq(Pow2(|rule.punctuation|), mask requires mask >= 0 => Select(rule.punctuation, mask))
  }

  lemma {:induction false} SelectIsSubset(marks: string, mask: nat, c: char)
    requires c in Select(marks, mask)
    ensures c in marks
  {
    if c in Select(marks[1..], mask / 2) { SelectIsSubset(marks[1..], mask / 2, c); }
  }

  lemma {:induction false} NothingSelected(marks: string)
    ensures Select(marks, 0) == []
  {
    if marks != [] { NothingSelected(marks[1..]); }
  }

  lemma SelectBit(marks: string, mask: nat)
    requires marks != []
    ensures Select(marks, 2 * mask + 1) == [marks[0]] + Select(marks[1..], mask)
    ensures Select(marks, 2 * mask) == Select(marks[1..], mask)
  {
    assert (2 * mask + 1) % 2 == 1 && (2 * mask + 1) / 2 == mask;
    assert (2 * mask) % 2 == 0 && (2 * mask) / 2 == mask;
    assert [] + Select(marks[1..], mask) == Select(marks[1..], mask);
  }

  /** Ascending marks without their first, when it is not wanted. */
  lemma SkipFirst(marks: string, key: string)
    requires StrictlyAscending(marks) && StrictlyAscending(key) && forall c :: c in key ==> c in marks
    requires marks != [] && key != [] && key[0] != marks[0]
    ensures forall c :: c in key ==> c in marks[1..]
  {
    assert key[0] in key;
    var i :| 0 <= i < |marks| && marks[i] == key[0];
    forall c | c in key ensures c in marks[1..] {
      var j :| 0 <= j < |marks| && marks[j] == c;
      var k :| 0 <= k < |key| && key[k] == c;
      assert marks[1..][j - 1] == c;
    }
  }

  lemma {:induction false} SubsetIsSelected(marks: string, key: string) returns (mask: nat)
    requires StrictlyAscending(marks) && StrictlyAscending(key) && forall c :: c in key ==> c in marks
    ensures mask < Pow2(|marks|) && Select(marks, mask) == key
    decreases |marks|
  {
    hide Select;
    if key == [] {
      NothingSelected(marks);
      Pow2Positive(|marks|);
      mask := 0;
    } else {
      assert key[0] in key;
      if key[0] == marks[0] {
        forall c | c in key[1..] ensures c in marks[1..] {
          assert c in key && c > key[0];
        }
        var rest := SubsetIsSelected(marks[1..], key[1..]);
        SelectBit(marks, rest);
        mask := 2 * rest + 1;
      } else {
        SkipFirst(marks, key);
        var rest := SubsetIsSelected(marks[1..], key);
        SelectBit(marks, rest);
        mask := 2 * rest;
      }
    }
  }

  lemma {:induction false} Pow2Positive(n: nat)
    ensures Pow2(n) > 0
  {
    if n > 0 { Pow2Positive(n - 1); }
  }

  /** There are no more keys than sets of a rule's marks, or two. */
  lemma KeysAreFew(rule: GapRule)
    ensures |Keys(rule)| == match |rule.punctuation| case 0 => 1 case 1 => 2 case 2 => 4 case 3 => 8 case _ => 2
  {
    assert Pow2(3) == 2 * Pow2(2) == 4 * Pow2(1) == 8;
  }

  /** A rule accepts exactly the separators whose marks are all its own; with many marks, only
      bare whitespace or all of them. */
  lemma KeysMean(rule: GapRule, key: string)
    requires StrictlyAscending(rule.punctuation) && StrictlyAscending(key)
    ensures key in Keys(rule) <==>
      if |rule.punctuation| <= MAX_SUBSET_PUNCTUATION then forall c :: c in key ==> c in rule.punctuation
      else key == "" || key == rule.punctuation
  {
    var marks := rule.punctuation;
    if |marks| <= MAX_SUBSET_PUNCTUATION {
      if key in Keys(rule) {
        var mask :| 0 <= mask < Pow2(|marks|) && key == Select(marks, mask);
        forall c | c in key ensures c in marks { SelectIsSubset(marks, mask, c); }
      }
      if forall c :: c in key ==> c in marks {
        var mask := SubsetIsSelected(marks, key);
        assert Keys(rule)[mask] == key;
      }
    }
  }

  // ---------- rules of an entry, and separators of a text ----------

  /** Rules read off a term, and those with a comma added for surname-first names, list their marks
      in ascending order. */
  lemma TermRulesAscend(m: Marks, gap: string)
    ensures StrictlyAscending(FromTermGap(m, gap).punctuation)
    ensures StrictlyAscending(WithComma(FromTermGap(m, gap)).punctuation)
    ensures forall c :: c in FromTermGap(m, gap).punctuation <==> c in SeparatorMarks(m, gap)
    ensures forall c :: c in WithComma(FromTermGap(m, gap)).punctuation <==> c in SeparatorMarks(m, gap) || c == ','
    ensures FromTermGap(m, gap).maxChars == WithComma(FromTermGap(m, gap)).maxChars
         == if |gap| > 4 then |gap| else 4
  {
    SeparatorMarksMean(m, gap);
    AddMarkSorted(SeparatorMarks(m, gap), ',');
  }

  /** Every character of `gap` is whitespace or, in canonical form, one of the marks. */
  predicate OnlyMarks(m: Marks, gap: string, marks: string) {
    forall i :: 0 <= i < |gap| && !m.isWhitespace(gap[i]) ==> m.canonical(gap[i]) in marks
  }

  /** Every mark is the canonical form of a character of `gap`. */
  predicate AllMarks(m: Marks, gap: string, marks: string) {
    forall c :: c in marks ==> exists i :: 0 <= i < |gap| && !m.isWhitespace(gap[i]) && m.canonical(gap[i]) == c
  }

  /** The text of a separator suits a rule: nothing but the rule's marks, and with many marks none or
      all of them. */
  predicate Suits(m: Marks, rule: GapRule, gap: string) {
    && OnlyMarks(m, gap, rule.punctuation)
    && (|rule.punctuation| > MAX_SUBSET_PUNCTUATION ==>
          OnlyMarks(m, gap, "") || AllMarks(m, gap, rule.punctuation))
  }

  /** A rule has the key of a separator exactly when the separator's text suits it. */
  lemma SuitsMeansKey(m: Marks, rule: GapRule, gap: string)
    requires StrictlyAscending(rule.punctuation)
    ensures SeparatorMarks(m, gap) in Keys(rule) <==> Suits(m, rule, gap)
  {
    hide Keys, SeparatorMarks;
    var key := SeparatorMarks(m, gap);
    SeparatorMarksMean(m, gap);
    KeysMean(rule, key);
    OnlyMarksMeans(m, gap, rule.punctuation);
    OnlyMarksMeans(m, gap, "");
    assert AllMarks(m, gap, rule.punctuation) <==> forall c :: c in rule.punctuation ==> c in key;
    assert key != "" ==> key[0] in key;
    if OnlyMarks(m, gap, rule.punctuation) && AllMarks(m, gap, rule.punctuation) {
      SameMarksSameOrder(key, rule.punctuation);
    }
  }

  lemma OnlyMarksMeans(m: Marks, gap: string, marks: string)
    ensures OnlyMarks(m, gap, marks) <==> forall c :: c in SeparatorMarks(m, gap) ==> c in marks
  {
    hide SeparatorMarks;
    SeparatorMarksMean(m, gap);
    forall i | 0 <= i < |gap| && !m.isWhitespace(gap[i]) ensures m.canonical(gap[i]) in SeparatorMarks(m, gap) {}
  }

  lemma {:induction false} SameMarksSameOrder(a: string, b: string)
    requires StrictlyAscending(a) && StrictlyAscending(b) && forall c :: c in a <==> c in b
    ensures a == b
  {
    assert b != "" ==> b[0] in b;
    if a != "" {
      assert a[0] in a && a[0] in b;
      assert a[0] == b[0];
      forall c ensures c in a[1..] <==> c in b[1..] {
        assert c in a[1..] <==> c in a && c != a[0];
        assert c in b[1..] <==> c in b && c != b[0];
      }
      SameMarksSameOrder(a[1..], b[1..]);
      assert a == [a[0]] + a[1..] && b == [b[0]] + b[1..];
    }
  }
}

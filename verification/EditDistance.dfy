/**
  Edit distance between folded letter sequences: the two-row loop of the gazetteer
  matcher, the recursive distance it computes, and what that distance means.
 */
module EditDistance {
  import opened Common
  import opened Subsequences

  function Cost(a: char, b: char): nat {
    if a == b then 0 else 1
  }

  /** Levenshtein's recurrence, peeling both strings from their ends. */
  function Levenshtein(a: string, b: string): nat
    decreases |a| + |b|
  {
    if a == [] then |b|
    else if b == [] then |a|
    else Min(Levenshtein(Init(a), Init(b)) + Cost(Last(a), Last(b)),
             Min(Levenshtein(Init(a), b) + 1, Levenshtein(a, Init(b)) + 1))
  }

  /** The recurrence on prefixes, which is how the rows are filled. */
  lemma PrefixStep(a: string, b: string, i: nat, j: nat)
    requires i < |a| && j < |b|
    ensures Levenshtein(a[..i + 1], b[..j + 1])
         == Min(Levenshtein(a[..i], b[..j]) + Cost(a[i], b[j]),
                Min(Levenshtein(a[..i], b[..j + 1]) + 1, Levenshtein(a[..i + 1], b[..j]) + 1))
  {
    assert Init(a[..i + 1]) == a[..i];
    assert Init(b[..j + 1]) == b[..j];
  }

  lemma PrefixBorder(a: string, b: string, i: nat)
    requires i <= |a|
    ensures Levenshtein(a[..i], b[..0]) == i
    ensures forall j :: 0 <= j <= |b| ==> Levenshtein(a[..0], b[..j]) == j
  {
  }

  /** The first `n` cells are the distances from `a[..i]` to the prefixes of `b`. */
  ghost predicate RowHolds(row: seq<nat>, a: string, i: nat, b: string, n: nat)
    requires i <= |a| && n <= |b| + 1 && n <= |row|
  {
    forall j :: 0 <= j < n ==> row[j] == Levenshtein(a[..i], b[..j])
  }

  /** The rows are overwritten in place and swapped after each letter of `left`. */
  method TwoRowDistance(left: string, right: string) returns (distance: nat)
    ensures distance == Levenshtein(left, right)
  {
    hide Levenshtein;
    var previous := new nat[|right| + 1](i => i);
    var current := new nat[|right| + 1](_ => 0);
    PrefixBorder(left, right, 0);
    for row := 0 to |left|
      invariant previous.Length == current.Length == |right| + 1
      invariant fresh(previous) && fresh(current) && previous != current
      invariant RowHolds(previous[..], left, row, right, |right| + 1)
    {
      FillRow(left, right, row, previous, current);
      previous, current := current, previous;
    }
    assert left[..|left|] == left && right[..|right|] == right;
    distance := previous[previous.Length - 1];
  }

  /** One pass of the inner loop: `current` becomes the row after letter `row`. */
  method FillRow(left: string, right: string, row: nat, previous: array<nat>, current: array<nat>)
    requires row < |left| && previous != current
    requires previous.Length == current.Length == |right| + 1
    requires RowHolds(previous[..], left, row, right, |right| + 1)
    modifies current
    ensures RowHolds(current[..], left, row + 1, right, |right| + 1)
  {
    hide Levenshtein;
    PrefixBorder(left, right, row + 1);
    current[0] := row + 1;
    for column := 0 to |right|
      invariant previous[..] == old(previous[..])
      invariant RowHolds(current[..], left, row + 1, right, column + 1)
    {
      PrefixStep(left, right, row, column);
      assert previous[column] == previous[..][column] && previous[column + 1] == previous[..][column + 1];
      assert current[column] == current[..][column];
      var substitution := previous[column] + (if left[row] != right[column] then 1 else 0);
      var deletion := previous[column + 1] + 1;
      var insertion := current[column] + 1;
      current[column + 1] := Min(Min(substitution, deletion), insertion);
    }
  }

  // ---------- the distance is a metric ----------

  lemma {:induction false} LengthGap(a: string, b: string)
    ensures Diff(|a|, |b|) <= Levenshtein(a, b) <= Max(|a|, |b|)
    decreases |a| + |b|
  {
    if a != [] && b != [] {
      LengthGap(Init(a), Init(b));
      LengthGap(Init(a), b);
      LengthGap(a, Init(b));
    }
  }

  lemma {:induction false} Symmetric(a: string, b: string)
    ensures Levenshtein(a, b) == Levenshtein(b, a)
    decreases |a| + |b|
  {
    if a != [] && b != [] {
      Symmetric(Init(a), Init(b));
      Symmetric(Init(a), b);
      Symmetric(a, Init(b));
    }
  }

  lemma {:induction false} ZeroOnlyForEqual(a: string, b: string)
    ensures Levenshtein(a, b) == 0 <==> a == b
    decreases |a| + |b|
  {
    if a != [] && b != [] {
      ZeroOnlyForEqual(Init(a), Init(b));
      assert a == Init(a) + [Last(a)] && b == Init(b) + [Last(b)];
    }
  }

  lemma {:induction false} Triangle(a: string, b: string, c: string)
    ensures Levenshtein(a, c) <= Levenshtein(a, b) + Levenshtein(b, c)
    decreases |a| + |b| + |c|
  {
    if a == [] || b == [] || c == [] {
      LengthGap(a, b);
      LengthGap(b, c);
      LengthGap(a, c);
    } else {
      Triangle(Init(a), b, c);
      Triangle(a, b, Init(c));
      Triangle(Init(a), Init(b), Init(c));
      Triangle(a, Init(b), c);
      Triangle(a, Init(b), Init(c));
      Triangle(Init(a), Init(b), c);
    }
  }

  // ---------- the distance counts single-character edits ----------

  /** One insertion, deletion or substitution turns `a` into `b`. */
  ghost predicate OneEdit(a: string, b: string) {
    exists u: string, x: string, y: string, v: string {:trigger u + x + v, u + y + v} ::
      |x| <= 1 && |y| <= 1 && a == u + x + v && b == u + y + v
  }

  /** At most `k` single-character edits turn `a` into `b`. */
  ghost predicate WithinEdits(a: string, b: string, k: nat)
    decreases k
  {
    a == b || (k > 0 && exists m: string :: OneEdit(a, m) && WithinEdits(m, b, k - 1))
  }

  lemma {:induction false} CommonSuffix(a: string, b: string, v: string)
    ensures Levenshtein(a + v, b + v) <= Levenshtein(a, b)
    decreases |v|
  {
    if v == [] {
      assert a + v == a && b + v == b;
    } else {
      CommonSuffix(a, b, Init(v));
      assert Init(a + v) == a + Init(v);
      assert Init(b + v) == b + Init(v);
    }
  }

  lemma AppendCostsOne(u: string, c: char)
    ensures Levenshtein(u + [c], u) <= 1 && Levenshtein(u, u + [c]) <= 1
  {
    ZeroOnlyForEqual(u, u);
    Symmetric(u + [c], u);
    assert Init(u + [c]) == u;
  }

  lemma SubstituteCostsOne(u: string, c: char, d: char)
    ensures Levenshtein(u + [c], u + [d]) <= 1
  {
    ZeroOnlyForEqual(u, u);
    assert Init(u + [c]) == u && Init(u + [d]) == u;
  }

  lemma OneEditCostsOne(a: string, b: string)
    requires OneEdit(a, b)
    ensures Levenshtein(a, b) <= 1
  {
    hide Levenshtein;
    var u: string, x: string, y: string, v: string :|
      |x| <= 1 && |y| <= 1 && a == u + x + v && b == u + y + v;
    if x == [] && y == [] {
      ZeroOnlyForEqual(u + x, u + y);
    } else if x == [] {
      AppendCostsOne(u, y[0]);
      assert u + x == u && u + y == u + [y[0]];
    } else if y == [] {
      AppendCostsOne(u, x[0]);
      assert u + y == u && u + x == u + [x[0]];
    } else {
      SubstituteCostsOne(u, x[0], y[0]);
      assert u + x == u + [x[0]] && u + y == u + [y[0]];
    }
    CommonSuffix(u + x, u + y, v);
  }

  lemma OneEditBefore(a: string, b: string, v: string)
    requires OneEdit(a, b)
    ensures OneEdit(a + v, b + v)
  {
    var u: string, x: string, y: string, w: string :|
      |x| <= 1 && |y| <= 1 && a == u + x + w && b == u + y + w;
    assert a + v == u + x + (w + v) && b + v == u + y + (w + v);
  }

  lemma {:induction false} EditsBefore(a: string, b: string, k: nat, v: string)
    requires WithinEdits(a, b, k)
    ensures WithinEdits(a + v, b + v, k)
    decreases k
  {
    if a != b {
      var m: string :| OneEdit(a, m) && WithinEdits(m, b, k - 1);
      EditsBefore(m, b, k - 1, v);
      OneEditBefore(a, m, v);
    }
  }

  lemma FirstEdit(a: string, m: string, b: string, k: nat, u: string, x: string, y: string)
    requires |x| <= 1 && |y| <= 1 && a == u + x && m == u + y
    requires WithinEdits(m, b, k)
    ensures WithinEdits(a, b, k + 1)
  {
    assert a == u + x + [] && m == u + y + [];
    assert OneEdit(a, m);
  }

  lemma {:induction false} MoreEdits(a: string, b: string, k: nat, n: nat)
    requires WithinEdits(a, b, k) && k <= n
    ensures WithinEdits(a, b, n)
    decreases k
  {
    if a != b {
      var m: string :| OneEdit(a, m) && WithinEdits(m, b, k - 1);
      MoreEdits(m, b, k - 1, n - 1);
    }
  }

  lemma SubstituteLast(a: string, b: string, k: nat)
    requires a != [] && b != [] && WithinEdits(Init(a), Init(b), k)
    ensures WithinEdits(a, b, if Last(a) == Last(b) then k else k + 1)
  {
    hide OneEdit, WithinEdits;
    EditsBefore(Init(a), Init(b), k, [Last(b)]);
    assert b == Init(b) + [Last(b)] && a == Init(a) + [Last(a)];
    if Last(a) != Last(b) {
      FirstEdit(a, Init(a) + [Last(b)], b, k, Init(a), [Last(a)], [Last(b)]);
    }
  }

  lemma NoEdits(a: string)
    ensures WithinEdits(a, a, 0)
  {
  }

  lemma DeleteLast(a: string, b: string, k: nat)
    requires a != [] && WithinEdits(Init(a), b, k)
    ensures WithinEdits(a, b, k + 1)
  {
    hide OneEdit, WithinEdits;
    FirstEdit(a, Init(a), b, k, Init(a), [Last(a)], []);
  }

  lemma InsertLast(a: string, b: string, k: nat)
    requires b != [] && WithinEdits(a, Init(b), k)
    ensures WithinEdits(a, b, k + 1)
  {
    hide OneEdit, WithinEdits;
    EditsBefore(a, Init(b), k, [Last(b)]);
    assert b == Init(b) + [Last(b)];
    FirstEdit(a, a + [Last(b)], b, k, a, [], [Last(b)]);
  }

  lemma {:induction false} EditsExist(a: string, b: string)
    ensures WithinEdits(a, b, Levenshtein(a, b))
    decreases |a| + |b|
  {
    hide OneEdit, WithinEdits;
    if a == [] && b == [] {
      NoEdits(a);
    } else if b == [] || (a != [] && Levenshtein(a, b) == Levenshtein(Init(a), b) + 1) {
      EditsExist(Init(a), b);
      DeleteLast(a, b, Levenshtein(Init(a), b));
    } else if a == [] || Levenshtein(a, b) == Levenshtein(a, Init(b)) + 1 {
      EditsExist(a, Init(b));
      InsertLast(a, b, Levenshtein(a, Init(b)));
    } else {
      EditsExist(Init(a), Init(b));
      SubstituteLast(a, b, Levenshtein(Init(a), Init(b)));
    }
  }

  lemma {:induction false} EditsBound(a: string, b: string, k: nat)
    requires WithinEdits(a, b, k)
    ensures Levenshtein(a, b) <= k
    decreases k
  {
    ZeroOnlyForEqual(a, b);
    if a != b {
      var m: string :| OneEdit(a, m) && WithinEdits(m, b, k - 1);
      EditsBound(m, b, k - 1);
      OneEditCostsOne(a, m);
      Triangle(a, m, b);
    }
  }

  /** The distance is the least number of single-character edits between two strings. */
  lemma DistanceIsLeastEditCount(a: string, b: string, k: nat)
    ensures Levenshtein(a, b) <= k <==> WithinEdits(a, b, k)
  {
    EditsExist(a, b);
    if Levenshtein(a, b) <= k {
      MoreEdits(a, b, Levenshtein(a, b), k);
    }
    if WithinEdits(a, b, k) {
      EditsBound(a, b, k);
    }
  }
}

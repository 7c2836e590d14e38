/** Strings read from their ends, and strings got from others by leaving letters out. */
module Subsequences {

  function Init(s: string): string
    requires s != []
  {
    s[..|s| - 1]
  }

  function Last(s: string): char
    requires s != []
  {
    s[|s| - 1]
  }

  predicate Subsequence(s: string, t: string)
    decreases |t|
  {
    if s == [] then true
    else if t == [] then false
    else (Last(s) == Last(t) && Subsequence(Init(s), Init(t))) || Subsequence(s, Init(t))
  }

  function Without(s: string, i: nat): string
    requires i < |s|
  {
    s[..i] + s[i + 1..]
  }

  lemma {:induction false} SubsequenceShorter(s: string, t: string)
    requires Subsequence(s, t)
    ensures |s| <= |t|
    ensures |s| == |t| ==> s == t
    decreases |t|
  {
    if s != [] {
      if Last(s) == Last(t) && Subsequence(Init(s), Init(t)) {
        SubsequenceShorter(Init(s), Init(t));
        assert s == Init(s) + [Last(s)] && t == Init(t) + [Last(t)];
      } else {
        SubsequenceShorter(s, Init(t));
      }
    }
  }

  lemma {:induction false} SubsequenceOfSelf(s: string)
    ensures Subsequence(s, s)
  {
    if s != [] { SubsequenceOfSelf(Init(s)); }
  }

  lemma {:induction false} DropLast(s: string, t: string)
    requires s != [] && Subsequence(s, t)
    ensures Subsequence(Init(s), t)
    decreases |t|
  {
    if Last(s) == Last(t) && Subsequence(Init(s), Init(t)) {
    } else {
      DropLast(s, Init(t));
    }
  }

  lemma WithoutThenInit(s: string, i: nat)
    requires i + 1 < |s|
    ensures Init(Without(s, i)) == Without(Init(s), i) && Last(Without(s, i)) == Last(s)
  {
    var a, b := Init(Without(s, i)), Without(Init(s), i);
    assert |a| == |b| == |s| - 2;
    forall k | 0 <= k < |s| - 2
      ensures a[k] == b[k]
    {
      assert a[k] == Without(s, i)[k] == if k < i then s[k] else s[k + 1];
      assert b[k] == if k < i then Init(s)[k] else Init(s)[k + 1];
    }
  }

  lemma {:induction false} DropAny(s: string, t: string, i: nat)
    requires i < |s| && Subsequence(s, t)
    ensures Subsequence(Without(s, i), t)
    decreases |t|
  {
    if i == |s| - 1 {
      assert Without(s, i) == Init(s);
      DropLast(s, t);
    } else if Last(s) == Last(t) && Subsequence(Init(s), Init(t)) {
      DropAny(Init(s), Init(t), i);
      WithoutThenInit(s, i);
    } else {
      DropAny(s, Init(t), i);
    }
  }

  /** A proper subsequence is one deletion away from a longer one. */
  lemma {:induction false} OneLetterMore(s: string, t: string) returns (longer: string, i: nat)
    requires Subsequence(s, t) && |s| < |t|
    ensures Subsequence(longer, t) && |longer| == |s| + 1
    ensures i < |longer| && Without(longer, i) == s
    decreases |t|
  {
    if s != [] && Last(s) == Last(t) && Subsequence(Init(s), Init(t)) {
      var shorter;
      shorter, i := OneLetterMore(Init(s), Init(t));
      longer := shorter + [Last(t)];
      assert Init(longer) == shorter;
      assert Without(longer, i) == Without(shorter, i) + [Last(t)] == s;
    } else {
      assert Subsequence(s, Init(t));
      longer, i := s + [Last(t)], |s|;
      assert Init(longer) == s;
    }
  }
}

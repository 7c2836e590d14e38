/**
  Printing placeholders as `[LABEL_n]` and recognising them in a text. Positions count characters.
 */
module PlaceholderText {
  import opened Common
  import opened Text

  // ---------- label keys ----------

  /** Upper-cases every character; one character may become several. */
  function Uppercase(upper: char -> string, text: string): string {
    if text == [] then [] else Uppercase(upper, text[..|text| - 1]) + upper(text[|text| - 1])
  }

  /** Upper-casing goes character by character. */
  lemma {:induction false} UppercaseInParts(upper: char -> string, a: string, b: string)
    ensures Uppercase(upper, a + b) == Uppercase(upper, a) + Uppercase(upper, b)
    ensures forall c :: Uppercase(upper, [c]) == upper(c)
    decreases |b|
  {
    forall c ensures Uppercase(upper, [c]) == upper(c) { assert [c][..0] == [] && [] + upper(c) == upper(c); }
    if b == [] {
      assert a + b == a;
    } else {
      assert (a + b)[..|a + b| - 1] == a + b[..|b| - 1];
      UppercaseInParts(upper, a, b[..|b| - 1]);
    }
  }

  /** Every run of whitespace becomes one underscore. */
  method CollapseWhitespace(text: string) returns (output: string)
    ensures output == Collapsed(text)
  {
    output := "";
    var inWhitespace := false;
    for k := 0 to |text|
      invariant output == Collapsed(text[..k])
      invariant inWhitespace <==> k > 0 && IsWhitespace(text[k - 1])
    {
      assert text[..k + 1][..k] == text[..k];
      if IsWhitespace(text[k]) {
        if !inWhitespace {
          output := output + "_";
          inWhitespace := true;
        }
        continue;
      }
      output := output + [text[k]];
      inWhitespace := false;
    }
    assert text[..|text|] == text;
  }

  function Collapsed(text: string): (r: string)
    ensures forall k :: 0 <= k < |r| ==> !IsWhitespace(r[k])
    ensures text != [] ==> r != []
    ensures forall c :: c in r && c != '_' ==> c in text
    ensures forall c :: c in text && !IsWhitespace(c) ==> c in r
  {
    if text == [] then []
    else
      var before := Collapsed(text[..|text| - 1]);
      assert text == text[..|text| - 1] + [text[|text| - 1]];
      if !IsWhitespace(text[|text| - 1]) then before + [text[|text| - 1]]
      else if |text| > 1 && IsWhitespace(text[|text| - 2]) then before
      else before + "_"
  }

  function LabelKey(upper: char -> string, labelText: string): string {
    Collapsed(Uppercase(upper, labelText))
  }

  // ---------- decimal numbers ----------

  function Digit(d: nat): char
    requires d < 10
  {
    "0123456789"[d]
  }

  function Digits(n: nat): (s: string)
    ensures |s| > 0
  {
    if n < 10 then [Digit(n)] else Digits(n / 10) + [Digit(n % 10)]
  }

  predicate IsDigit(c: char) { '0' <= c <= '9' }

  lemma {:induction false} DigitsAreDigits(n: nat)
    ensures forall k :: 0 <= k < |Digits(n)| ==> IsDigit(Digits(n)[k])
    ensures n > 0 ==> Digits(n)[0] != '0'
  {
    if n >= 10 { DigitsAreDigits(n / 10); }
  }

  lemma {:induction false} DigitsInjective(m: nat, n: nat)
    requires Digits(m) == Digits(n)
    ensures m == n
  {
    var s := Digits(m);
    if m >= 10 && n >= 10 {
      assert s[..|s| - 1] == Digits(m / 10) == Digits(n / 10);
      DigitsInjective(m / 10, n / 10);
    }
    assert s[|s| - 1] == Digit(m % 10) == Digit(n % 10);
    assert |Digits(m / 10)| > 0 && |Digits(n / 10)| > 0;
  }

  /** The number a run of decimal digits stands for. */
  function ReadNumber(s: string): int {
    if s == [] then 0 else 10 * ReadNumber(s[..|s| - 1]) + (s[|s| - 1] as int - '0' as int)
  }

  lemma {:induction false} DigitsReadBack(n: nat)
    ensures ReadNumber(Digits(n)) == n
  {
    if n < 10 {
      assert Digits(n)[..0] == [];
    } else {
      DigitsReadBack(n / 10);
      assert Digits(n)[..|Digits(n)| - 1] == Digits(n / 10);
    }
  }

  // ---------- printing ----------

  function Printed(key: string, n: nat): string {
    "[" + key + "_" + Digits(n) + "]"
  }

  function LastIndexOf(s: string, c: char): (r: Option<nat>)
    ensures r.Some? ==> r.value < |s| && s[r.value] == c && c !in s[r.value + 1..]
    ensures r.None? ==> c !in s
  {
    if s == [] then None
    else if s[|s| - 1] == c then Some(|s| - 1)
    else
      var i := LastIndexOf(s[..|s| - 1], c);
      assert s == s[..|s| - 1] + [s[|s| - 1]];
      assert i.Some? ==> s[i.value + 1..] == s[..|s| - 1][i.value + 1..] + [s[|s| - 1]];
      i
  }

  lemma LastIsUnique(s: string, c: char, i: nat)
    requires i < |s| && s[i] == c && c !in s[i + 1..]
    ensures LastIndexOf(s, c) == Some(i)
  {
  }

  lemma KeyEndsAtLastUnderscore(key: string, n: nat)
    ensures LastIndexOf(key + "_" + Digits(n), '_') == Some(|key|)
  {
    var inner := key + "_" + Digits(n);
    DigitsAreDigits(n);
    assert inner[|key| + 1..] == Digits(n);
    LastIsUnique(inner, '_', |key|);
  }

  /** A printed placeholder determines its label key and its number, whatever the key holds. */
  lemma PrintedInjective(a: string, m: nat, b: string, n: nat)
    requires Printed(a, m) == Printed(b, n)
    ensures a == b && m == n
  {
    hide Digits, LastIndexOf;
    var x, y := a + "_" + Digits(m), b + "_" + Digits(n);
    assert x == Printed(a, m)[1..|x| + 1] && y == Printed(b, n)[1..|y| + 1];
    KeyEndsAtLastUnderscore(a, m);
    KeyEndsAtLastUnderscore(b, n);
    assert a == x[..|a|] && b == y[..|b|];
    assert Digits(m) == x[|a| + 1..] && Digits(n) == y[|b| + 1..];
    DigitsInjective(m, n);
  }

  // ---------- recognising ----------

  predicate Plain(s: string) {
    forall k :: 0 <= k < |s| ==> !IsWhitespace(s[k]) && s[k] != '[' && s[k] != ']'
  }

  predicate IsPlaceholderInner(inner: string) {
    if inner == "" || !Plain(inner) then false
    else
      match LastIndexOf(inner, '_')
      case None => false
      case Some(separator) =>
        if separator == 0 then false
        else IsNumber(inner[separator + 1..])
  }

  predicate IsNumber(s: string) {
    s != "" && IsDigit(s[0]) && s[0] != '0' && forall k :: 0 < k < |s| ==> IsDigit(s[k])
  }

  lemma PlainParts(a: string, b: string)
    ensures Plain(a + b) <==> Plain(a) && Plain(b)
  {
    assert forall k :: 0 <= k < |a| ==> (a + b)[k] == a[k];
    assert forall k :: 0 <= k < |b| ==> (a + b)[|a| + k] == b[k];
  }

  lemma DigitsArePlain(n: nat)
    ensures Plain(Digits(n)) && (n > 0 ==> IsNumber(Digits(n)))
  {
    DigitsAreDigits(n);
  }

  /** The recogniser accepts what is printed exactly for label keys that are not empty and hold
      neither brackets nor whitespace. */
  lemma PrintedIsRecognised(key: string, n: nat)
    requires n > 0
    ensures IsPlaceholderInner(key + "_" + Digits(n)) <==> key != "" && Plain(key)
  {
    hide Plain, Digits, IsNumber, LastIndexOf;
    var inner := key + "_" + Digits(n);
    KeyEndsAtLastUnderscore(key, n);
    DigitsArePlain(n);
    PlainParts(key + "_", Digits(n));
    PlainParts(key, "_");
    UnderscoreIsPlain();
    assert inner[|key| + 1..] == Digits(n);
  }

  lemma UnderscoreIsPlain()
    ensures Plain("_")
  {
  }

  /** A run of digits without a leading zero is how its number is printed. */
  lemma {:induction false} NumberReads(s: string)
    requires s != "" && (forall k :: 0 <= k < |s| ==> IsDigit(s[k])) && s[0] != '0'
    ensures ReadNumber(s) > 0 && Digits(ReadNumber(s)) == s
    decreases |s|
  {
    hide Digits;
    var init, last := s[..|s| - 1], s[|s| - 1];
    assert s == init + [last];
    OneDigit(last);
    if init != "" {
      NumberReads(init);
    } else {
      assert ReadNumber(init) == 0;
    }
    DigitsStep(ReadNumber(init), last as int - '0' as int);
  }

  lemma OneDigit(c: char)
    requires IsDigit(c)
    ensures 0 <= c as int - '0' as int < 10 && Digit(c as int - '0' as int) == c
  {
  }

  lemma DigitsStep(n: nat, d: nat)
    requires d < 10
    ensures Digits(10 * n + d) == if n == 0 then [Digit(d)] else Digits(n) + [Digit(d)]
  {
    hide Digit;
    assert (10 * n + d) / 10 == n && (10 * n + d) % 10 == d;
  }

  /** The recogniser accepts nothing but what is printed for some plain label key and number. */
  lemma RecognisedIsPrinted(inner: string) returns (key: string, n: nat)
    requires IsPlaceholderInner(inner)
    ensures key != "" && Plain(key) && n > 0 && inner == key + "_" + Digits(n)
  {
    hide Digits, ReadNumber, IsNumber;
    var separator := LastIndexOf(inner, '_').value;
    key := inner[..separator];
    var number := inner[separator + 1..];
    IsNumberStarts(number);
    NumberReads(number);
    n := ReadNumber(number);
    assert inner == key + "_" + number;
    PlainParts(key, "_" + number);
    assert inner == key + ("_" + number);
  }

  lemma IsNumberStarts(s: string)
    requires IsNumber(s)
    ensures s != "" && s[0] != '0' && forall k :: 0 <= k < |s| ==> IsDigit(s[k])
  {
  }

  // ---------- scanning ----------

  /** `text[open..end]` is a recognised placeholder with its brackets. */
  predicate IsPlaceholderAt(text: string, open: nat, end: nat) {
    && open + 1 < end <= |text| && text[open] == '[' && text[end - 1] == ']'
    && IsPlaceholderInner(text[open + 1..end - 1])
  }

  /** What is recognised in a text are exactly the places that show a printed placeholder whose label
      key is not empty and holds neither brackets nor whitespace. */
  lemma PlaceholderAtMeans(text: string, open: nat, end: nat)
    ensures IsPlaceholderAt(text, open, end) <==>
      open <= end <= |text| && exists key, n: nat :: ShowsPlaceholder(text[open..end], key, n)
  {
    hide IsPlaceholderInner, Printed, Plain, Digits;
    if IsPlaceholderAt(text, open, end) {
      var key, n := RecognisedIsPrinted(text[open + 1..end - 1]);
      PrintedParts(key, n);
      assert text[open..end] == "[" + text[open + 1..end - 1] + "]";
      assert ShowsPlaceholder(text[open..end], key, n);
    }
    if open <= end <= |text| {
      if key, n: nat :| ShowsPlaceholder(text[open..end], key, n) {
        PrintedParts(key, n);
        var inner := key + "_" + Digits(n);
        assert end - open == |inner| + 2;
        assert text[open..end][0] == text[open] && text[open..end][end - open - 1] == text[end - 1];
        assert ("[" + inner + "]")[1..|inner| + 1] == inner;
        InnerPart(text, open, end);
        PrintedIsRecognised(key, n);
      }
    }
  }

  lemma InnerPart(text: string, open: nat, end: nat)
    requires open + 2 <= end <= |text|
    ensures text[open..end][1..end - open - 1] == text[open + 1..end - 1]
  {
    var inner := text[open + 1..end - 1];
    forall k | 0 <= k < |inner|
      ensures text[open..end][1..end - open - 1][k] == inner[k]
    {
      assert text[open..end][1..end - open - 1][k] == text[open..end][k + 1] == text[open + k + 1];
    }
  }

  ghost predicate ShowsPlaceholder(shown: string, key: string, n: nat) {
    && key != "" && n > 0 && shown == Printed(key, n)
    && forall k :: 0 <= k < |key| ==> !IsWhitespace(key[k]) && key[k] != '[' && key[k] != ']'
  }

  lemma PrintedParts(key: string, n: nat)
    ensures var inner := key + "_" + Digits(n);
            Printed(key, n) == "[" + inner + "]" && |Printed(key, n)| == |inner| + 2
    ensures Plain(key) <==> forall k :: 0 <= k < |key| ==> !IsWhitespace(key[k]) && key[k] != '[' && key[k] != ']'
  {
  }

  /** The last opening bracket before `k` with no closing one after it. */
  function OpenBefore(text: string, k: nat): (r: Option<nat>)
    requires k <= |text|
    ensures r.Some? ==> r.value < k && text[r.value] == '['
    ensures r.Some? ==> forall j :: r.value < j < k ==> text[j] != '[' && text[j] != ']'
  {
    if k == 0 || text[k - 1] == ']' then None
    else if text[k - 1] == '[' then Some(k - 1)
    else OpenBefore(text, k - 1)
  }

  lemma {:induction false} OpenIsLast(text: string, k: nat, open: nat)
    requires open < k <= |text| && text[open] == '['
    requires forall j :: open < j < k ==> text[j] != '[' && text[j] != ']'
    ensures OpenBefore(text, k) == Some(open)
  {
    if open < k - 1 { OpenIsLast(text, k - 1, open); }
  }

  /** A placeholder ends at a closing bracket and starts at the bracket remembered there. */
  lemma EndsHere(text: string, k: nat, open: nat)
    requires k < |text|
    ensures IsPlaceholderAt(text, open, k + 1)
       <==> text[k] == ']' && OpenBefore(text, k) == Some(open) && IsPlaceholderInner(text[open + 1..k])
  {
    hide IsPlaceholderInner;
    if IsPlaceholderAt(text, open, k + 1) {
      InnerIsPlain(text, open, k);
      OpenIsLast(text, k, open);
    }
    if text[k] == ']' && OpenBefore(text, k) == Some(open) && IsPlaceholderInner(text[open + 1..k]) {
      InnerIsPlain(text, open, k);
    }
  }

  lemma InnerIsPlain(text: string, open: nat, k: nat)
    requires open < k <= |text| && IsPlaceholderInner(text[open + 1..k])
    ensures open + 1 < k
    ensures forall j :: open < j < k ==> text[j] != '[' && text[j] != ']'
  {
  }

  /** One pass reports exactly the recognised placeholders of the text. */
  method ReservedPlaceholderSpans(text: string) returns (spans: seq<(nat, nat)>)
    ensures forall open: nat, end: nat :: (open, end) in spans <==> IsPlaceholderAt(text, open, end)
    ensures forall j, k :: 0 <= j < k < |spans| ==> spans[j].1 <= spans[k].0
  {
    hide IsPlaceholderInner, IsPlaceholderAt, ReportedTo, OpenBefore;
    NoneReported(text);
    spans := [];
    var start: Option<nat> := None;
    for index := 0 to |text|
      invariant start == OpenBefore(text, index)
      invariant ReportedTo(text, spans, index)
      invariant forall j, k :: 0 <= j < k < |spans| ==> spans[j].1 <= spans[k].0
      invariant forall j :: 0 <= j < |spans| ==> spans[j].1 <= index && (start.Some? ==> spans[j].1 <= start.value)
    {
      OpenStep(text, index);
      Reported(text, spans, index);
      assert spans + [] == spans;
      if text[index] == '[' {
        start := Some(index);
        continue;
      }
      if text[index] != ']' { continue; }
      if start.None? { continue; }
      var open := start.value;
      start := None;
      if IsPlaceholderInner(text[open + 1..index]) {
        spans := spans + [(open, index + 1)];
      }
    }
    AllReported(text, spans);
  }

  ghost predicate ReportedTo(text: string, spans: seq<(nat, nat)>, index: nat) {
    forall open: nat, end: nat :: (open, end) in spans <==> end <= index && IsPlaceholderAt(text, open, end)
  }

  lemma NoneReported(text: string)
    ensures ReportedTo(text, [], 0)
  {
  }

  /** The placeholder that ends behind character `k`, if one does. */
  function FoundAt(text: string, k: nat): seq<(nat, nat)>
    requires k < |text|
  {
    var open := OpenBefore(text, k);
    if text[k] == ']' && open.Some? && IsPlaceholderInner(text[open.value + 1..k]) then [(open.value, k + 1)] else []
  }

  lemma Reported(text: string, spans: seq<(nat, nat)>, k: nat)
    requires k < |text| && ReportedTo(text, spans, k)
    ensures ReportedTo(text, spans + FoundAt(text, k), k + 1)
  {
    hide IsPlaceholderInner, IsPlaceholderAt, OpenBefore;
    forall open: nat, end: nat
      ensures (open, end) in spans + FoundAt(text, k) <==> end <= k + 1 && IsPlaceholderAt(text, open, end)
    {
      if end == k + 1 { EndsHere(text, k, open); }
    }
  }

  lemma AllReported(text: string, spans: seq<(nat, nat)>)
    requires ReportedTo(text, spans, |text|)
    ensures forall open: nat, end: nat :: (open, end) in spans <==> IsPlaceholderAt(text, open, end)
  {
  }

  lemma OpenStep(text: string, k: nat)
    requires k < |text|
    ensures OpenBefore(text, k + 1)
         == if text[k] == ']' then None else if text[k] == '[' then Some(k) else OpenBefore(text, k)
  {
  }

  ghost predicate Occurs(text: string, part: string) {
    exists i: nat :: OccursAt(text, part, i)
  }

  predicate OccursAt(text: string, part: string, i: nat) {
    i + |part| <= |text| && text[i..i + |part|] == part
  }

  /** The recognised placeholders of a text, as text. */
  ghost predicate IsReserved(text: string, placeholder: string) {
    exists open: nat, end: nat :: IsPlaceholderAt(text, open, end) && text[open..end] == placeholder
  }

  /** Every placeholder that stands anywhere in a text is reserved, if its key is not empty and plain;
      and then nothing else is reserved under its name. */
  lemma PrintedIsReserved(text: string, key: string, n: nat)
    requires n > 0
    ensures IsReserved(text, Printed(key, n)) <==> Occurs(text, Printed(key, n)) && key != "" && Plain(key)
  {
    hide IsPlaceholderInner;
    var p := Printed(key, n);
    var inner := key + "_" + Digits(n);
    assert p == "[" + inner + "]" && p[1..|p| - 1] == inner;
    PrintedIsRecognised(key, n);
    if Occurs(text, p) && key != "" && Plain(key) {
      var i: nat :| OccursAt(text, p, i);
      Bracketed(text, i, p, inner);
    }
    if IsReserved(text, p) {
      var open: nat, end: nat :| IsPlaceholderAt(text, open, end) && text[open..end] == p;
      Unbracketed(text, open, end, p, inner);
    }
  }

  lemma SliceInside(text: string, i: nat, j: nat)
    requires i + 1 < j <= |text|
    ensures text[i..j][1..j - i - 1] == text[i + 1..j - 1]
  {
    var whole, inside := text[i..j], text[i + 1..j - 1];
    assert whole == [text[i]] + inside + [text[j - 1]];
  }

  lemma Bracketed(text: string, i: nat, p: string, inner: string)
    requires OccursAt(text, p, i) && p == "[" + inner + "]" && IsPlaceholderInner(inner)
    ensures IsPlaceholderAt(text, i, i + |p|) && text[i..i + |p|] == p
  {
    hide IsPlaceholderInner;
    assert IsPlaceholderInner("") == false by { EmptyInner(); }
    assert text[i] == p[0] && text[i + |p| - 1] == p[|p| - 1];
    SliceInside(text, i, i + |p|);
    assert p[1..|p| - 1] == inner;
  }

  lemma Unbracketed(text: string, open: nat, end: nat, p: string, inner: string)
    requires IsPlaceholderAt(text, open, end) && text[open..end] == p && p == "[" + inner + "]"
    ensures OccursAt(text, p, open) && IsPlaceholderInner(inner)
  {
    hide IsPlaceholderInner;
    SliceInside(text, open, end);
    assert p[1..|p| - 1] == inner;
  }

  lemma EmptyInner()
    ensures !IsPlaceholderInner("")
  {
  }

  /** The text that consists of a placeholder with any other key reserves nothing. */
  lemma UnrecognisedStandsFree(key: string, n: nat)
    requires n > 0 && (key == "" || !Plain(key))
    ensures Occurs(Printed(key, n), Printed(key, n)) && !IsReserved(Printed(key, n), Printed(key, n))
  {
    var p := Printed(key, n);
    assert p[0..|p|] == p;
    assert OccursAt(p, p, 0);
    PrintedIsReserved(p, key, n);
  }

  method CollectReservedPlaceholders(text: string) returns (reserved: set<string>)
    ensures forall p :: p in reserved <==> IsReserved(text, p)
    ensures |reserved| <= |text|
  {
    hide IsPlaceholderAt;
    var spans := ReservedPlaceholderSpans(text);
    SpansFit(text, spans);
    reserved := {};
    for k := 0 to |spans|
      invariant forall p :: p in reserved <==> exists j :: 0 <= j < k && text[spans[j].0..spans[j].1] == p
      invariant |reserved| <= k
    {
      reserved := reserved + {text[spans[k].0..spans[k].1]};
    }
    forall p ensures p in reserved <==> IsReserved(text, p) {
      if p in reserved {
        var j :| 0 <= j < |spans| && text[spans[j].0..spans[j].1] == p;
        assert (spans[j].0, spans[j].1) in spans;
      }
      if IsReserved(text, p) {
        var open: nat, end: nat :| IsPlaceholderAt(text, open, end) && text[open..end] == p;
        var j :| 0 <= j < |spans| && spans[j] == (open, end);
      }
    }
  }

  /** Spans lie in the text one behind the other, so there are no more of them than characters. */
  lemma SpansFit(text: string, spans: seq<(nat, nat)>)
    requires forall open: nat, end: nat :: (open, end) in spans <==> IsPlaceholderAt(text, open, end)
    requires forall j, k :: 0 <= j < k < |spans| ==> spans[j].1 <= spans[k].0
    ensures forall j :: 0 <= j < |spans| ==> spans[j].0 < spans[j].1 <= |text|
    ensures |spans| <= |text|
  {
    hide IsPlaceholderInner;
    forall j | 0 <= j < |spans| ensures spans[j].0 < spans[j].1 <= |text| {
      assert (spans[j].0, spans[j].1) in spans;
    }
    SpansRise(spans);
    if spans != [] { assert spans[|spans| - 1].1 <= |text|; }
  }

  lemma {:induction false} SpansRise(spans: seq<(nat, nat)>)
    requires forall j :: 0 <= j < |spans| ==> spans[j].0 < spans[j].1
    requires forall j, k :: 0 <= j < k < |spans| ==> spans[j].1 <= spans[k].0
    ensures spans != [] ==> |spans| <= spans[|spans| - 1].1
  {
    if |spans| > 1 { SpansRise(spans[..|spans| - 1]); }
  }
}

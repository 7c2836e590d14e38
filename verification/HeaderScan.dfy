/**
  The end of the header zone: the first character boundary that has 15 percent of all UTF-16 units,
  32768 units or 200 lines before it. The scan stops as soon as unseen text cannot move that
  boundary.
 */
module HeaderScan {
  import opened Common
  import opened Text

  const HEADER_ZONE_PERCENT: nat := 15
  const HEADER_ZONE_MAX_UTF16_UNITS: nat := 32 * 1024
  const HEADER_ZONE_MAX_LINES: nat := 200

  /** Offsets are 32-bit; one that does not fit becomes the largest. */
  function ToU32(n: nat): nat {
    if n <= U32_MAX then n else U32_MAX
  }

  function Newlines(s: string): nat {
    if s == [] then 0 else Newlines(s[..|s| - 1]) + (if s[|s| - 1] == '\n' then 1 else 0)
  }

  lemma NewlinesStep(s: string, i: nat)
    requires i < |s|
    ensures Newlines(s[..i + 1]) == Newlines(s[..i]) + (if s[i] == '\n' then 1 else 0)
  {
    assert s[..i + 1][..i] == s[..i];
  }

  lemma {:induction false} NewlinesRise(s: string, i: nat, j: nat)
    requires i <= j <= |s|
    ensures Newlines(s[..i]) <= Newlines(s[..j])
    decreases j
  {
    if i < j {
      NewlinesRise(s, i, j - 1);
      NewlinesStep(s, j - 1);
    }
  }

  // ---------- the definition ----------

  /** The header has reached boundary `k` of the text. */
  predicate Reached(text: string, cutoff: nat, k: nat)
    requires k <= |text|
  {
    Units(text[..k]) >= cutoff || Newlines(text[..k]) >= HEADER_ZONE_MAX_LINES
  }

  /** The first boundary from `k` on that the header reaches, or the end of the text. */
  function FirstReached(text: string, cutoff: nat, k: nat): (r: nat)
    requires k <= |text|
    ensures k <= r <= |text|
    ensures r < |text| ==> Reached(text, cutoff, r)
    ensures forall j :: k <= j < r ==> !Reached(text, cutoff, j)
    decreases |text| - k
  {
    if k == |text| || Reached(text, cutoff, k) then k else FirstReached(text, cutoff, k + 1)
  }

  /** The smaller of 15 percent of all units, rounded down, and the absolute cutoff. */
  function Cutoff(text: string): nat {
    Min(Units(text) * HEADER_ZONE_PERCENT / 100, HEADER_ZONE_MAX_UTF16_UNITS)
  }

  /** The header's last boundary, in characters. */
  function HeaderBoundary(text: string): nat {
    FirstReached(text, Cutoff(text), 0)
  }

  lemma FirstIsUnique(text: string, cutoff: nat, r: nat)
    requires r <= |text| && (r < |text| ==> Reached(text, cutoff, r))
    requires forall j :: 0 <= j < r ==> !Reached(text, cutoff, j)
    ensures r == FirstReached(text, cutoff, 0)
  {
  }

  // ---------- the line limit, observed prefix by prefix ----------

  /** The boundary behind the newline that ends the last header line. */
  function LineEnd(text: string): (r: Option<nat>)
    ensures r.Some? ==> var l := r.value; 0 < l <= |text| && Newlines(text[..l]) == HEADER_ZONE_MAX_LINES
    ensures r.Some? ==> text[r.value - 1] == '\n'
    ensures r.None? <==> Newlines(text) < HEADER_ZONE_MAX_LINES
  {
    if Newlines(text) < HEADER_ZONE_MAX_LINES then None
    else if Newlines(text[..|text| - 1]) >= HEADER_ZONE_MAX_LINES then
      var end := LineEnd(text[..|text| - 1]);
      assert text[..|text| - 1][..end.value] == text[..end.value];
      end
    else
      assert text[..|text|] == text;
      Some(|text|)
  }

  /** The line limit is reached exactly from that boundary on. */
  lemma LineEndReached(text: string, k: nat)
    requires k <= |text|
    ensures Newlines(text[..k]) >= HEADER_ZONE_MAX_LINES <==> LineEnd(text).Some? && LineEnd(text).value <= k
  {
    hide LineEnd, Newlines;
    match LineEnd(text)
    case None =>
      assert text[..|text|] == text;
      NewlinesRise(text, k, |text|);
    case Some(l) =>
      if l <= k {
        NewlinesRise(text, l, k);
      } else {
        NewlinesRise(text, k, l - 1);
        NewlinesStep(text, l - 1);
      }
  }

  /** More text does not move it. */
  lemma {:induction false} LineEndStays(text: string, n: nat)
    requires n <= |text|
    ensures LineEnd(text[..n]).Some? ==> LineEnd(text) == LineEnd(text[..n])
  {
    match LineEnd(text[..n])
    case None =>
    case Some(l) =>
      assert text[..n][..l] == text[..l];
      LineEndReached(text, l);
      var m := LineEnd(text).value;
      assert text[..n][..m] == text[..m];
      LineEndReached(text[..n], m);
  }

  lemma LineEndStep(text: string, i: nat)
    requires i < |text|
    ensures LineEnd(text[..i + 1])
         == if text[i] == '\n' && Newlines(text[..i]) == HEADER_ZONE_MAX_LINES - 1 then Some(i + 1)
            else LineEnd(text[..i])
  {
    assert text[..i + 1][..i] == text[..i];
    NewlinesStep(text, i);
  }

  /** The cutoff that the observed text alone imposes. */
  function Structural(text: string): (s: nat)
    ensures s <= HEADER_ZONE_MAX_UTF16_UNITS
  {
    match LineEnd(text)
    case None => HEADER_ZONE_MAX_UTF16_UNITS
    case Some(l) => Min(HEADER_ZONE_MAX_UTF16_UNITS, Units(text[..l]))
  }

  function CeilDiv(a: nat, b: nat): nat
    requires b > 0
  {
    (a + b - 1) / b
  }

  /** 15 percent of the observed text already come up to that cutoff. */
  predicate Dominates(text: string) {
    Units(text) >= CeilDiv(Structural(text) * 100, HEADER_ZONE_PERCENT)
  }

  // ---------- the early exit ----------

  lemma PercentReaches(seen: nat, all: nat, s: nat)
    requires seen <= all && seen >= CeilDiv(s * 100, HEADER_ZONE_PERCENT)
    ensures s <= all * HEADER_ZONE_PERCENT / 100 && s <= seen
  {
    assert 15 * CeilDiv(s * 100, 15) >= s * 100;
    assert 100 * s <= 15 * all;
  }

  /** Once a prefix dominates, the whole text's cutoff finds the boundary the prefix's cutoff finds,
      and finds it inside the prefix. */
  lemma DominatedBoundary(text: string, n: nat)
    requires n <= |text| && Dominates(text[..n])
    ensures HeaderBoundary(text) == FirstReached(text, Structural(text[..n]), 0) <= n
  {
    hide LineEnd, Dominates, Structural, CeilDiv;
    var s := Structural(text[..n]);
    WidthsRise(text, n, |text|);
    assert text[..|text|] == text;
    DominationMeans(text, n);
    var c := Cutoff(text);
    var r := FirstReached(text, s, 0);
    assert Reached(text, s, n);
    LineEndStays(text, n);
    forall k | 0 <= k <= r ensures Reached(text, c, k) <==> Reached(text, s, k) {
      SameAtBoundary(text, n, k);
    }
    FirstIsUnique(text, c, r);
  }

  lemma DominationMeans(text: string, n: nat)
    requires n <= |text| && Dominates(text[..n])
    ensures Structural(text[..n]) <= Units(text[..n])
      && Structural(text[..n]) <= Cutoff(text) <= HEADER_ZONE_MAX_UTF16_UNITS
  {
    hide LineEnd, Structural, CeilDiv;
    WidthsRise(text, n, |text|);
    assert text[..|text|] == text;
    PercentReaches(Units(text[..n]), Units(text), Structural(text[..n]));
  }

  /** Below the absolute limit the two cutoffs differ only behind the last header line. */
  lemma SameAtBoundary(text: string, n: nat, k: nat)
    requires k <= n <= |text| && Structural(text[..n]) <= Cutoff(text) <= HEADER_ZONE_MAX_UTF16_UNITS
    ensures Reached(text, Cutoff(text), k) <==> Reached(text, Structural(text[..n]), k)
  {
    hide Cutoff;
    LineEndStays(text, n);
    match LineEnd(text[..n])
    case None =>
    case Some(l) =>
      assert text[..n][..l] == text[..l];
      LineEndReached(text, k);
      if k < l { WidthsRise(text, k, l); }
  }

  /** No suffix changes the answer once a prefix dominates. */
  lemma NoSuffixMatters(text: string, more: string)
    requires Dominates(text)
    ensures HeaderBoundary(text + more) == HeaderBoundary(text)
  {
    hide Dominates, Structural, Cutoff;
    var all := text + more;
    assert all[..|text|] == text && text[..|text|] == text;
    DominatedBoundary(all, |text|);
    DominatedBoundary(text, |text|);
    var s := Structural(text);
    var r := FirstReached(all, s, 0);
    forall k | 0 <= k <= |text| ensures Reached(text, s, k) <==> Reached(all, s, k) {
      assert all[..k] == text[..k];
    }
    FirstIsUnique(text, s, r);
  }

  // ---------- the scan ----------

  /** The cutoff or the line limit, given in bytes, is reached at boundary `k`. */
  predicate Stops(text: string, cutoff: nat, lineCutoff: Option<nat>, k: nat)
    requires k <= |text|
  {
    Units(text[..k]) >= cutoff || (lineCutoff.Some? && Bytes(text[..k]) >= lineCutoff.value)
  }

  /** The first boundary from `k` on where the search stops. */
  function FirstStop(text: string, cutoff: nat, lineCutoff: Option<nat>, k: nat): (r: nat)
    requires k <= |text|
    ensures k <= r <= |text|
    ensures r < |text| ==> Stops(text, cutoff, lineCutoff, r)
    ensures forall j :: k <= j < r ==> !Stops(text, cutoff, lineCutoff, j)
    decreases |text| - k
  {
    if k == |text| || Stops(text, cutoff, lineCutoff, k) then k else FirstStop(text, cutoff, lineCutoff, k + 1)
  }

  method ByteOffsetAtUtf16Cutoff(text: string, cutoff: nat, lineCutoff: Option<nat>) returns (offset: nat)
    ensures var bytes := Bytes(text[..FirstStop(text, cutoff, lineCutoff, 0)]);
            offset == if bytes < 0x1_0000_0000 then bytes else 0xFFFF_FFFF
  {
    hide Units, Bytes;
    EmptyPrefix(text);
    var units: nat, byte: nat := 0, 0;
    for i := 0 to |text|
      invariant units == Units(text[..i]) && byte == Bytes(text[..i])
      invariant FirstStop(text, cutoff, lineCutoff, 0) == FirstStop(text, cutoff, lineCutoff, i)
    {
      if units >= cutoff || (lineCutoff.Some? && byte >= lineCutoff.value) {
        return ToU32(byte);
      }
      BytesStep(text, i);
      units := units + Utf16Len(text[i]);
      byte := byte + Utf8Len(text[i]);
    }
    assert text[..|text|] == text;
    offset := ToU32(byte);
  }

  /** With the byte behind the last header line as limit, or none while the cutoff comes before that
      line ends, the stop is the header's boundary. */
  lemma StopIsBoundary(text: string, cutoff: nat, lineCutoff: Option<nat>)
    requires lineCutoff.Some? ==> LineEnd(text).Some? && lineCutoff.value == Bytes(text[..LineEnd(text).value])
    requires lineCutoff.None? ==> LineEnd(text).None? || Reached(text, cutoff, LineEnd(text).value - 1)
    ensures FirstStop(text, cutoff, lineCutoff, 0) == FirstReached(text, cutoff, 0)
  {
    hide LineEnd, Newlines, Units, Bytes, FirstReached, FirstStop;
    var k := FirstStop(text, cutoff, lineCutoff, 0);
    forall j | 0 <= j <= k ensures Stops(text, cutoff, lineCutoff, j) <==> Reached(text, cutoff, j) {
      LineEndReached(text, j);
      if LineEnd(text).Some? {
        var l := LineEnd(text).value;
        if l <= j { WidthsRise(text, l, j); } else { WidthsRise(text, j, l); }
        if l <= j && lineCutoff.None? {
          LineEndReached(text, l - 1);
          WidthsRise(text, l - 1, j);
        }
      }
    }
    FirstIsUnique(text, cutoff, k);
  }

  /** The early-exit scan finds the defined header end on every text. */
  method HeaderEnd(text: string) returns (end: nat)
    ensures var bytes := Bytes(text[..HeaderBoundary(text)]);
            end == if bytes < 0x1_0000_0000 then bytes else 0xFFFF_FFFF
  {
    hide LineEnd, Dominates, Reached, Newlines, Units, Bytes, FirstStop, FirstReached;
    var textUnits: nat, lineCount: nat, byte: nat := 0, 0, 0;
    var lineCutoff: Option<nat>, lineCutoffUnits: Option<nat> := None, None;
    var dominationUnits := CeilDiv(HEADER_ZONE_MAX_UTF16_UNITS * 100, HEADER_ZONE_PERCENT);
    EmptyPrefix(text);
    for i := 0 to |text|
      invariant textUnits == Units(text[..i]) && byte == Bytes(text[..i]) && lineCount == Newlines(text[..i])
      invariant lineCutoff == AtLineEnd(text[..i], Bytes) && lineCutoffUnits == AtLineEnd(text[..i], Units)
      invariant dominationUnits == CeilDiv(Structural(text[..i]) * 100, HEADER_ZONE_PERCENT)
    {
      BytesStep(text, i);
      NewlinesStep(text, i);
      LineEndStep(text, i);
      LineEndKept(text, i);
      textUnits := textUnits + Utf16Len(text[i]);
      if text[i] == '\n' {
        lineCount := lineCount + 1;
        if lineCount == HEADER_ZONE_MAX_LINES {
          lineCutoff := Some(byte + Utf8Len(text[i]));
          lineCutoffUnits := Some(textUnits);
          var structuralCutoff := Min(HEADER_ZONE_MAX_UTF16_UNITS, textUnits);
          dominationUnits := CeilDiv(structuralCutoff * 100, HEADER_ZONE_PERCENT);
        }
      }
      byte := byte + Utf8Len(text[i]);
      if textUnits >= dominationUnits {
        var structuralCutoff := HEADER_ZONE_MAX_UTF16_UNITS;
        if lineCutoffUnits.Some? { structuralCutoff := Min(structuralCutoff, lineCutoffUnits.value); }
        ExitIsSound(text, i + 1);
        end := ByteOffsetAtUtf16Cutoff(text, structuralCutoff, lineCutoff);
        StopIsBoundary(text, structuralCutoff, lineCutoff);
        return;
      }
    }
    assert text[..|text|] == text;
    var cutoff := Min(textUnits * HEADER_ZONE_PERCENT / 100, HEADER_ZONE_MAX_UTF16_UNITS);
    end := ByteOffsetAtUtf16Cutoff(text, cutoff, lineCutoff);
    StopIsBoundary(text, cutoff, lineCutoff);
  }

  /** A width of the text up to the end of its last header line. */
  function AtLineEnd(text: string, width: string -> nat): Option<nat> {
    match LineEnd(text)
    case None => None
    case Some(l) => Some(width(text[..l]))
  }

  lemma EmptyPrefix(text: string)
    ensures text[..0] == "" && Units("") == 0 && Bytes("") == 0 && Newlines("") == 0 && LineEnd("") == None
  {
  }

  lemma LineEndKept(text: string, i: nat)
    requires i < |text|
    ensures LineEnd(text[..i]).Some? ==> text[..i][..LineEnd(text[..i]).value] == text[..LineEnd(text[..i]).value]
    ensures LineEnd(text[..i + 1]).Some? ==>
      text[..i + 1][..LineEnd(text[..i + 1]).value] == text[..LineEnd(text[..i + 1]).value]
    ensures LineEnd(text[..i]).Some? ==> Newlines(text[..i]) >= HEADER_ZONE_MAX_LINES
  {
  }

  /** What the early exit relies on. */
  lemma ExitIsSound(text: string, n: nat)
    requires n <= |text| && Units(text[..n]) >= CeilDiv(Structural(text[..n]) * 100, HEADER_ZONE_PERCENT)
    ensures HeaderBoundary(text) == FirstReached(text, Structural(text[..n]), 0)
    ensures LineEnd(text[..n]).Some? ==>
      LineEnd(text) == LineEnd(text[..n]) && text[..n][..LineEnd(text).value] == text[..LineEnd(text).value]
    ensures LineEnd(text[..n]).None? ==>
      LineEnd(text).None? || Reached(text, Structural(text[..n]), LineEnd(text).value - 1)
  {
    hide LineEnd, Structural, CeilDiv, Newlines, Units, Cutoff, FirstReached;
    DominatedBoundary(text, n);
    LineEndStays(text, n);
    if LineEnd(text[..n]).None? && LineEnd(text).Some? {
      var l := LineEnd(text).value;
      LineEndReached(text, n);
      DominationMeans(text, n);
      WidthsRise(text, n, l - 1);
    }
  }
}

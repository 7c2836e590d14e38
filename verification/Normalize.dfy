/**
  Normalised search text: look-alike spaces, dashes and quotes replaced by ASCII, with a map from
  every byte of the normalised text back to the original.
 */
module Normalize {
  import opened Common
  import opened Text
  import opened ByteOffsets

  function ReplacementChar(c: char): char {
    if c == '\U{00A0}' || c == '\U{2007}' || c == '\U{202F}' then ' '
    else if c == '\U{2013}' || c == '\U{2014}' then '-'
    else if c == '\U{201C}' || c == '\U{201D}' then '"'
    else c
  }

  function Normalized(text: string): (r: string)
    ensures |r| == |text|
    ensures forall k :: 0 <= k < |text| ==> r[k] == ReplacementChar(text[k])
  {
    if text == [] then [] else Normalized(text[..|text| - 1]) + [ReplacementChar(text[|text| - 1])]
  }

  /** Three spaces, two dashes and two quotation marks become their ASCII look-alikes; nothing else
      changes. */
  lemma LookAlikesReplaced(text: string, k: nat)
    requires k < |text|
    ensures var c := Normalized(text)[k];
            && (text[k] in {'\U{A0}', '\U{2007}', '\U{202F}'} ==> c == ' ')
            && (text[k] in {'\U{2013}', '\U{2014}'} ==> c == '-')
            && (text[k] in {'\U{201C}', '\U{201D}'} ==> c == '"')
            && (c != text[k] ==>
                 text[k] in {'\U{A0}', '\U{2007}', '\U{202F}', '\U{2013}', '\U{2014}', '\U{201C}', '\U{201D}'})
  {
  }

  predicate HasReplacement(text: string) {
    exists k :: 0 <= k < |text| && ReplacementChar(text[k]) != text[k]
  }

  lemma Unreplaced(text: string)
    ensures !HasReplacement(text) <==> Normalized(text) == text
  {
  }

  method FindReplacement(text: string) returns (hasReplacement: bool)
    ensures hasReplacement == HasReplacement(text)
  {
    hasReplacement := false;
    for k := 0 to |text|
      invariant !hasReplacement && forall j :: 0 <= j < k ==> ReplacementChar(text[j]) == text[j]
    {
      if ReplacementChar(text[k]) != text[k] { return true; }
    }
  }

  method NormalizeForSearch(text: string) returns (output: string)
    ensures output == Normalized(text)
  {
    var hasReplacement := FindReplacement(text);
    Unreplaced(text);
    if !hasReplacement { return text; }
    output := "";
    for k := 0 to |text|
      invariant output == Normalized(text)[..k]
    {
      output := output + [ReplacementChar(text[k])];
    }
  }

  // ---------- the byte map ----------

  const NO_BOUNDARY: nat := U32_MAX

  /** Slot per byte of the normalised text and one for its end: the original offset at boundaries. */
  function MapOf(text: string): (slots: seq<nat>)
    ensures |slots| > 0 && slots[|slots| - 1] == Bytes(text)
  {
    if text == [] then [0]
    else MapOf(text[..|text| - 1]) + Filler(Utf8Len(ReplacementChar(text[|text| - 1])) - 1) + [Bytes(text)]
  }

  function Filler(n: nat): (slots: seq<nat>)
    ensures |slots| == n && forall k :: 0 <= k < n ==> slots[k] == NO_BOUNDARY
  {
    seq(n, k => NO_BOUNDARY)
  }

  /** The map while it is being written. */
  class ByteMap {
    var slots: seq<nat>

    constructor ()
      ensures slots == [0]
    {
      slots := [0];
    }

    method SetBoundary(normalizedOffset: nat, originalOffset: nat)
      modifies this
      ensures slots
           == (old(slots) + Filler(SatSub(normalizedOffset + 1, |old(slots)|)))[normalizedOffset := originalOffset]
    {
      if |slots| <= normalizedOffset {
        slots := slots + Filler(normalizedOffset + 1 - |slots|);
      }
      slots := slots[normalizedOffset := originalOffset];
    }
  }

  lemma {:induction false} MapLength(text: string)
    ensures |MapOf(text)| == Bytes(Normalized(text)) + 1
  {
    if text != [] {
      MapLength(text[..|text| - 1]);
      assert Normalized(text)[..|text| - 1] == Normalized(text[..|text| - 1]);
    }
  }

  /** What one character adds, written as the two stores the loop makes. */
  lemma {:induction false} MapGrows(text: string, k: nat)
    requires k < |text|
    ensures var slots, at, next := MapOf(text[..k]), Bytes(Normalized(text)[..k]), Bytes(Normalized(text)[..k + 1]);
            && at + 1 == |slots| && slots[at] == Bytes(text[..k])
            && next > at
            && MapOf(text[..k + 1]) == (slots + Filler(next - at))[next := Bytes(text[..k + 1])]
  {
    hide Bytes;
    assert text[..k + 1][..k] == text[..k];
    assert Normalized(text)[..k] == Normalized(text[..k]);
    MapLength(text[..k]);
    BytesStep(Normalized(text), k);
    var slots := MapOf(text[..k]);
    var w := Utf8Len(ReplacementChar(text[k]));
    assert MapOf(text[..k + 1]) == slots + Filler(w - 1) + [Bytes(text[..k + 1])];
  }

  datatype NormalizedSearchText = NormalizedSearchText(text: string, byteToOriginal: Option<seq<nat>>) {

    function MapSpan(start: nat, end: nat): Result<(nat, nat), OffsetError> {
      if start > end then Err(InvalidSpan(start, end))
      else
        match byteToOriginal
        case None => Ok((start, end))
        case Some(slots) =>
          var first :- MapNormalizedOffset(slots, start);
          var last :- MapNormalizedOffset(slots, end);
          Ok((first, last))
    }
  }

  function MapNormalizedOffset(slots: seq<nat>, offset: nat): Result<nat, OffsetError> {
    if offset >= |slots| then Err(OutOfBounds(offset))
    else if slots[offset] == NO_BOUNDARY then Err(InsideCodepoint(offset))
    else Ok(slots[offset])
  }

  ghost predicate IsNormalized(n: NormalizedSearchText, text: string) {
    && n.text == Normalized(text)
    && n.byteToOriginal == if HasReplacement(text) then Some(MapOf(text)) else None
  }

  method NormalizeForSearchWithByteMap(text: string) returns (r: Result<NormalizedSearchText, OffsetError>)
    ensures r.Ok? <==> !HasReplacement(text) || Bytes(text) <= U32_MAX
    ensures r.Ok? ==> IsNormalized(r.value, text)
  {
    hide Bytes, MapOf, Filler, HasReplacement, Utf8Len, ReplacementChar;
    var hasReplacement := FindReplacement(text);
    Unreplaced(text);
    if !hasReplacement { return Ok(NormalizedSearchText(text, None)); }
    var output: string := "";
    var originalStart: nat, outputLen: nat := 0, 0;
    var byteToOriginal := new ByteMap();
    NothingMapped(text);
    for k := 0 to |text|
      invariant output == Normalized(text)[..k] && outputLen == Bytes(Normalized(text)[..k])
      invariant originalStart == Bytes(text[..k]) <= U32_MAX
      invariant byteToOriginal.slots == MapOf(text[..k])
    {
      MapGrows(text, k);
      BytesStep(text, k);
      BytesStep(Normalized(text), k);
      WidthsRise(text, k + 1, |text|);
      assert text[..|text|] == text;
      byteToOriginal.SetBoundary(outputLen, originalStart);
      SameSlots(MapOf(text[..k]), outputLen);
      output := output + [ReplacementChar(text[k])];
      outputLen := outputLen + Utf8Len(ReplacementChar(text[k]));
      var originalEnd := originalStart + Utf8Len(text[k]);
      if originalEnd > U32_MAX { return Err(OutOfBounds(U32_MAX)); }
      byteToOriginal.SetBoundary(outputLen, originalEnd);
      originalStart := originalEnd;
    }
    assert text[..|text|] == text;
    r := Ok(NormalizedSearchText(output, Some(byteToOriginal.slots)));
  }

  lemma NothingMapped(text: string)
    ensures text[..0] == "" && Bytes(text[..0]) == 0 && MapOf("") == [0] && Bytes(Normalized(text)[..0]) == 0
  {
  }

  lemma SameSlots(slots: seq<nat>, at: nat)
    requires at < |slots|
    ensures (slots + Filler(SatSub(at + 1, |slots|)))[at := slots[at]] == slots
  {
  }

  // ---------- what the map says ----------

  /** The slot of each boundary holds the matching original boundary. */
  lemma {:induction false} BoundarySlot(text: string, k: nat)
    requires k <= |text|
    ensures Bytes(Normalized(text)[..k]) < |MapOf(text)|
    ensures MapOf(text)[Bytes(Normalized(text)[..k])] == Bytes(text[..k])
  {
    MapLength(text);
    if k == |text| {
      assert text[..k] == text && Normalized(text)[..k] == Normalized(text);
    } else {
      BoundarySlot(text[..|text| - 1], k);
      assert text[..|text| - 1][..k] == text[..k];
      assert Normalized(text[..|text| - 1])[..k] == Normalized(text)[..k];
    }
  }

  /** Every other slot says that no character starts there. */
  lemma {:induction false} OtherSlot(text: string, offset: nat)
    requires offset < |MapOf(text)|
    ensures MapOf(text)[offset] == NO_BOUNDARY || IsBoundary(Normalized(text), offset)
  {
    hide Bytes, BoundaryAt, Normalized, ReplacementChar;
    MapLength(text);
    if text == [] {
      BoundaryFound("", 0);
    } else {
      var before := text[..|text| - 1];
      MapLength(before);
      assert Normalized(before) == Normalized(text)[..|text| - 1];
      if offset < |MapOf(before)| {
        if IsBoundary(Normalized(before), offset) {
          var k := BoundaryAt(Normalized(before), offset).value;
          assert Normalized(before)[..k] == Normalized(text)[..k];
          BoundaryFound(Normalized(text), k);
        }
        OtherSlot(before, offset);
      } else if offset == |MapOf(text)| - 1 {
        assert Normalized(text)[..|text|] == Normalized(text);
        BoundaryFound(Normalized(text), |text|);
      }
    }
  }

  /** A normalised offset maps to `original` exactly when both are the same boundary, in characters,
      of the two texts, short of the one offset that is taken to mark the slots in between. */
  lemma OffsetMaps(text: string, offset: nat, original: nat)
    ensures MapNormalizedOffset(MapOf(text), offset) == Ok(original)
       <==> exists k :: SameBoundary(text, offset, original, k) && original != NO_BOUNDARY
  {
    hide MapOf, Bytes, Normalized;
    if MapNormalizedOffset(MapOf(text), offset) == Ok(original) {
      if !IsBoundary(Normalized(text), offset) { OtherSlot(text, offset); }
      var k := BoundaryAt(Normalized(text), offset).value;
      BoundarySlot(text, k);
      assert SameBoundary(text, offset, original, k);
    }
    if exists k :: SameBoundary(text, offset, original, k) && original != NO_BOUNDARY {
      var k :| SameBoundary(text, offset, original, k);
      BoundarySlot(text, k);
    }
  }

  ghost predicate SameBoundary(text: string, offset: nat, original: nat, k: nat) {
    k <= |text| && Bytes(Normalized(text)[..k]) == offset && Bytes(text[..k]) == original
  }

  /** Mapped offsets rise strictly. */
  lemma MappedOffsetsRise(text: string, a: nat, b: nat)
    requires a < b && MapNormalizedOffset(MapOf(text), a).Ok? && MapNormalizedOffset(MapOf(text), b).Ok?
    ensures MapNormalizedOffset(MapOf(text), a).value < MapNormalizedOffset(MapOf(text), b).value
  {
    hide MapNormalizedOffset, MapOf;
    OffsetMaps(text, a, MapNormalizedOffset(MapOf(text), a).value);
    OffsetMaps(text, b, MapNormalizedOffset(MapOf(text), b).value);
    var i :| SameBoundary(text, a, MapNormalizedOffset(MapOf(text), a).value, i);
    var j :| SameBoundary(text, b, MapNormalizedOffset(MapOf(text), b).value, j);
    if i < j { WidthsRise(text, i, j); } else { WidthsRise(Normalized(text), j, i); }
  }

  lemma {:induction false} NormalizedSlice(text: string, i: nat, j: nat)
    requires i <= j <= |text|
    ensures Normalized(text[i..j]) == Normalized(text)[i..j]
  {
  }

  /** Normalising the original slice that a span maps to gives the normalised slice of the span. */
  lemma MappedSliceNormalizes(text: string, n: NormalizedSearchText, start: nat, end: nat)
    requires IsNormalized(n, text) && n.MapSpan(start, end).Ok? && Slice(n.text, start, end).Ok?
    ensures var span := n.MapSpan(start, end).value;
            Slice(text, span.0, span.1).Ok?
              && Normalized(Slice(text, span.0, span.1).value) == Slice(n.text, start, end).value
  {
    hide MapOf, Bytes;
    var i, j := BoundaryAt(n.text, start).value, BoundaryAt(n.text, end).value;
    var span := n.MapSpan(start, end).value;
    if n.byteToOriginal.Some? {
      BoundarySlot(text, i);
      BoundarySlot(text, j);
      BoundaryFound(text, i);
      BoundaryFound(text, j);
      InOrder(text, n.text, i, j);
      NormalizedSlice(text, i, j);
    } else {
      Unreplaced(text);
      NormalizedSlice(text, i, j);
    }
  }

  lemma InOrder(text: string, normalized: string, i: nat, j: nat)
    requires normalized == Normalized(text) && i <= |text| && j <= |text|
      && Bytes(normalized[..i]) <= Bytes(normalized[..j])
    ensures i <= j && Bytes(text[..i]) <= Bytes(text[..j])
  {
    if j < i { WidthsRise(normalized, j, i); } else { WidthsRise(text, i, j); }
  }

  /** A span with a map is accepted exactly when both ends are boundaries of the normalised text, in
      order, and neither stands at the original offset that marks the slots in between. */
  lemma SpanMaps(text: string, n: NormalizedSearchText, start: nat, end: nat)
    requires IsNormalized(n, text) && HasReplacement(text)
    ensures n.MapSpan(start, end).Ok?
       <==> start <= end && IsBoundary(n.text, start) && IsBoundary(n.text, end)
            && Bytes(text[..BoundaryAt(n.text, start).value]) != NO_BOUNDARY
            && Bytes(text[..BoundaryAt(n.text, end).value]) != NO_BOUNDARY
  {
    hide MapOf, Bytes;
    OneEndMaps(text, start);
    OneEndMaps(text, end);
  }

  lemma OneEndMaps(text: string, offset: nat)
    ensures MapNormalizedOffset(MapOf(text), offset).Ok?
       <==> IsBoundary(Normalized(text), offset) &&
            Bytes(text[..BoundaryAt(Normalized(text), offset).value]) != NO_BOUNDARY
  {
    hide MapOf, Bytes, Normalized;
    if IsBoundary(Normalized(text), offset) {
      BoundarySlot(text, BoundaryAt(Normalized(text), offset).value);
    } else if offset < |MapOf(text)| {
      OtherSlot(text, offset);
    }
  }

  /** Below four gigabytes no boundary stands at that offset. */
  lemma {:induction false} NoBoundaryLost(text: string, k: nat)
    requires k <= |text| && Bytes(text) < U32_MAX
    ensures MapNormalizedOffset(MapOf(text), Bytes(Normalized(text)[..k])) == Ok(Bytes(text[..k]))
  {
    BoundarySlot(text, k);
    WidthsRise(text, k, |text|);
    assert text[..|text|] == text;
  }

  /** At exactly that many bytes the end of the text is refused as if it lay inside a character. */
  lemma LastBoundaryLost(text: string)
    requires HasReplacement(text) && Bytes(text) == U32_MAX
    ensures MapNormalizedOffset(MapOf(text), Bytes(Normalized(text))) == Err(InsideCodepoint(Bytes(Normalized(text))))
  {
    BoundarySlot(text, |text|);
    assert text[..|text|] == text && Normalized(text)[..|text|] == Normalized(text);
  }

  /** Normalising twice changes nothing more. */
  lemma NormalizedTwice(text: string)
    ensures Normalized(Normalized(text)) == Normalized(text)
    ensures !HasReplacement(Normalized(text))
  {
  }
}

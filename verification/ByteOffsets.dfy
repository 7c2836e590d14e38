/**
  Byte offsets into a text: validation, slices, and walks by UTF-16 units in both directions.
  Offsets are 32-bit; a walk that would end beyond them fails.
 */
module ByteOffsets {
  import opened Common
  import opened Text

  datatype OffsetError = OutOfBounds(offset: nat) | InsideCodepoint(offset: nat) | InvalidSpan(start: nat, end: nat)

  /** The number of characters before byte `offset`, when a character starts or the text ends there. */
  function BoundaryAt(text: string, offset: nat): (r: Option<nat>)
    ensures r.Some? ==> var i := r.value; i <= |text| && Bytes(text[..i]) == offset
  {
    if Bytes(text) == offset then
      assert text[..|text|] == text;
      Some(|text|)
    else if text == [] then None
    else
      var found := BoundaryAt(text[..|text| - 1], offset);
      assert found.Some? ==> text[..|text| - 1][..found.value] == text[..found.value];
      found
  }

  /** A boundary is found, and only at its own place. */
  lemma {:induction false} BoundaryFound(text: string, i: nat)
    requires i <= |text|
    ensures BoundaryAt(text, Bytes(text[..i])) == Some(i)
  {
    var found := BoundaryAt(text, Bytes(text[..i]));
    assert text[..|text|] == text;
    if i < |text| {
      WidthsRise(text, i, |text|);
      BoundaryFound(text[..|text| - 1], i);
      assert text[..|text| - 1][..i] == text[..i];
    }
  }

  predicate IsBoundary(text: string, offset: nat) {
    BoundaryAt(text, offset).Some?
  }

  /** The text before a boundary. */
  function Prefix(text: string, offset: nat): (p: string)
    requires IsBoundary(text, offset)
    ensures p <= text && Bytes(p) == offset
  {
    text[..BoundaryAt(text, offset).value]
  }

  function ValidateOffset(text: string, offset: nat): (r: Result<nat, OffsetError>)
    ensures r.Ok? <==> IsBoundary(text, offset)
    ensures r.Ok? ==> var i := r.value; i <= |text| && Bytes(text[..i]) == offset
    ensures r.Err? ==> r.error == if offset > Bytes(text) then OutOfBounds(offset) else InsideCodepoint(offset)
  {
    if offset > Bytes(text) then
      (BoundaryInside(text, offset); Err(OutOfBounds(offset)))
    else
      match BoundaryAt(text, offset)
      case None => Err(InsideCodepoint(offset))
      case Some(i) => Ok(i)
  }

  lemma BoundaryInside(text: string, offset: nat)
    ensures IsBoundary(text, offset) ==> offset <= Bytes(text)
  {
  }

  lemma InOrder(text: string, i: nat, j: nat)
    requires i <= |text| && j <= |text| && Bytes(text[..i]) <= Bytes(text[..j])
    ensures i <= j
  {
    if j < i { WidthsRise(text, j, i); }
  }

  /** Boundaries of the text in characters, in place of byte offsets. */
  function BoundarySpan(text: string, start: nat, end: nat): (r: Result<(nat, nat), OffsetError>)
    ensures r.Ok? <==> start <= end && IsBoundary(text, start) && IsBoundary(text, end)
    ensures r.Ok? ==> var (i, j) := r.value; i <= j <= |text| && Bytes(text[..i]) == start && Bytes(text[..j]) == end
  {
    if start > end then Err(InvalidSpan(start, end))
    else
      var i :- ValidateOffset(text, start);
      var j :- ValidateOffset(text, end);
      InOrder(text, i, j);
      Ok((i, j))
  }

  function Slice(text: string, start: nat, end: nat): (r: Result<string, OffsetError>)
    ensures r.Ok? <==> start <= end && IsBoundary(text, start) && IsBoundary(text, end)
    ensures r.Ok? ==> Bytes(r.value) == end - start
    ensures r.Ok? ==> Prefix(text, start) + r.value == Prefix(text, end)
  {
    var span :- BoundarySpan(text, start, end);
    BoundaryFound(text, span.0);
    BoundaryFound(text, span.1);
    WidthsBetween(text, span.0, span.1);
    Ok(text[span.0..span.1])
  }

  function Utf16UnitsBetween(text: string, start: nat, end: nat): (r: Result<nat, OffsetError>)
    ensures r.Ok? ==> start <= end && IsBoundary(text, start) && IsBoundary(text, end)
    ensures r.Ok? ==> Units(Prefix(text, start)) + r.value == Units(Prefix(text, end))
    ensures r.Ok? ==> end - start <= 3 * r.value && r.value <= end - start
    ensures start <= end <= U32_MAX && IsBoundary(text, start) && IsBoundary(text, end) ==> r.Ok?
  {
    var slice :- Slice(text, start, end);
    BytesPerUnit(slice);
    WidthsConcat(Prefix(text, start), slice);
    if Units(slice) > U32_MAX then Err(OutOfBounds(U32_MAX)) else Ok(Units(slice))
  }

  /** The largest boundary at or before a byte offset, found by stepping back. */
  method FloorOffset(text: string, offset: U32) returns (r: Result<U32, OffsetError>)
    ensures r.Ok? && IsBoundary(text, r.value) && r.value <= offset
    ensures forall b: nat :: IsBoundary(text, b) && b <= offset ==> b <= r.value
  {
    hide BoundaryAt;
    var index: nat := Min(offset, Bytes(text));
    assert IsBoundary(text, 0) by {
      BoundaryFound(text, 0);
      assert text[..0] == "";
    }
    forall b: nat | IsBoundary(text, b) ensures b <= Bytes(text) { BoundaryInside(text, b); }
    while index > 0 && !IsBoundary(text, index)
      invariant index <= offset
      invariant forall b: nat :: IsBoundary(text, b) && b <= offset ==> b <= index
    {
      index := index - 1;
    }
    r := Ok(index);
  }

  // ---------- walks by units ----------

  /** The furthest boundary reached from `i` forward within `maxUnits` units. */
  function After(text: string, i: nat, maxUnits: nat): (j: nat)
    requires i <= |text|
    ensures i <= j <= |text|
    decreases |text| - i
  {
    if i == |text| || Utf16Len(text[i]) > maxUnits then i
    else After(text, i + 1, maxUnits - Utf16Len(text[i]))
  }

  /** The furthest boundary reached from `j` backward within `maxUnits` units. */
  function Before(text: string, j: nat, maxUnits: nat): (i: nat)
    requires j <= |text|
    ensures i <= j
  {
    if j == 0 || Utf16Len(text[j - 1]) > maxUnits then j
    else Before(text, j - 1, maxUnits - Utf16Len(text[j - 1]))
  }

  lemma UnitsFirst(text: string, i: nat, j: nat)
    requires i < j <= |text|
    ensures Units(text[i..j]) == Utf16Len(text[i]) + Units(text[i + 1..j])
    ensures Units(text[i..j]) == Units(text[i..j - 1]) + Utf16Len(text[j - 1])
  {
    assert text[i..j] == [text[i]] + text[i + 1..j];
    WidthsConcat([text[i]], text[i + 1..j]);
    assert Units([text[i]]) == Utf16Len(text[i]) by { assert [text[i]][..0] == ""; }
    assert text[i..j][..j - i - 1] == text[i..j - 1];
  }

  /** Going forward reaches exactly the boundaries within the distance. */
  lemma {:induction false} AfterMeans(text: string, i: nat, j: nat, maxUnits: nat)
    requires i <= j <= |text|
    ensures j <= After(text, i, maxUnits) <==> Units(text[i..j]) <= maxUnits
    decreases j - i
  {
    if i < j {
      UnitsFirst(text, i, j);
      if Utf16Len(text[i]) <= maxUnits { AfterMeans(text, i + 1, j, maxUnits - Utf16Len(text[i])); }
    }
  }

  /** Going back reaches exactly the boundaries within the distance. */
  lemma {:induction false} BeforeMeans(text: string, i: nat, j: nat, maxUnits: nat)
    requires i <= j <= |text|
    ensures Before(text, j, maxUnits) <= i <==> Units(text[i..j]) <= maxUnits
    decreases j - i
  {
    if i < j {
      UnitsFirst(text, i, j);
      if Utf16Len(text[j - 1]) <= maxUnits { BeforeMeans(text, i, j - 1, maxUnits - Utf16Len(text[j - 1])); }
    }
  }

  /** One boundary is within forward reach of another exactly when that one is within backward reach
      of it. */
  lemma ReachIsMutual(text: string, i: nat, j: nat, maxUnits: nat)
    requires i <= j <= |text|
    ensures j <= After(text, i, maxUnits) <==> Before(text, j, maxUnits) <= i
  {
    AfterMeans(text, i, j, maxUnits);
    BeforeMeans(text, i, j, maxUnits);
  }

  /** The counter of units stays at its maximum once it gets there, so that a limit of `U32_MAX`
      never stops the walk. */
  function Furthest(text: string, i: nat, maxUnits: U32): (j: nat)
    requires i <= |text|
    ensures i <= j <= |text|
  {
    if maxUnits == U32_MAX then |text| else After(text, i, maxUnits)
  }

  /** On texts whose offsets fit 32 bits that is the limit as written. */
  lemma FurthestIsAfter(text: string, i: nat, maxUnits: U32)
    requires i <= |text| && Bytes(text) <= U32_MAX
    ensures Furthest(text, i, maxUnits) == After(text, i, maxUnits)
  {
    AfterMeans(text, i, |text|, maxUnits);
    WidthsBetween(text, i, |text|);
    Bounded(text, |text|);
  }

  /** A byte offset as a 32-bit number. */
  function Narrow(offset: nat): Result<U32, OffsetError> {
    if offset <= U32_MAX then Ok(offset) else Err(OutOfBounds(U32_MAX))
  }

  method OffsetAfterUtf16Units(text: string, start: U32, maxUnits: U32) returns (r: Result<U32, OffsetError>)
    ensures ValidateOffset(text, start).Err? ==> r.Err? && r.error == ValidateOffset(text, start).error
    ensures ValidateOffset(text, start).Ok? ==>
      r == Narrow(Bytes(text[..Furthest(text, ValidateOffset(text, start).value, maxUnits)]))
  {
    hide BoundaryAt, Units, Bytes;
    var validated := ValidateOffset(text, start);
    if validated.Err? { return Err(validated.error); }
    var first := validated.value;
    var units: nat, relative: nat := 0, 0;
    Whole(text);
    for k := first to |text|
      invariant relative == Bytes(text[..k]) - start && units <= maxUnits
      invariant maxUnits < U32_MAX ==> After(text, first, maxUnits) == After(text, k, maxUnits - units)
    {
      BytesStep(text, k);
      if SatAdd(units, Utf16Len(text[k])) > maxUnits {
        return Narrow(start + relative);
      }
      units := SatAdd(units, Utf16Len(text[k]));
      relative := relative + Utf8Len(text[k]);
    }
    r := Narrow(Bytes(text));
  }

  method OffsetBeforeUtf16Units(text: string, end: U32, maxUnits: U32) returns (r: Result<U32, OffsetError>)
    ensures ValidateOffset(text, end).Err? ==> r.Err? && r.error == ValidateOffset(text, end).error
    ensures ValidateOffset(text, end).Ok? ==>
      r.Ok? && r.value == Bytes(text[..Before(text, ValidateOffset(text, end).value, maxUnits)])
  {
    hide BoundaryAt, Units, Bytes;
    var validated := ValidateOffset(text, end);
    if validated.Err? { return Err(validated.error); }
    var last := validated.value;
    var units: nat, byte: nat := 0, end;
    Whole(text);
    for k := last downto 0
      invariant byte == Bytes(text[..k]) <= end && units + Units(text[..k]) <= Units(text[..last]) && units <= maxUnits
      invariant Before(text, last, maxUnits) == Before(text, k, maxUnits - units)
    {
      BytesStep(text, k);
      Bounded(text, last);
      byte := byte - Utf8Len(text[k]);
      if SatAdd(units, Utf16Len(text[k])) > maxUnits {
        return Narrow(byte + Utf8Len(text[k]));
      }
      units := SatAdd(units, Utf16Len(text[k]));
    }
    r := Ok(0);
  }

  lemma Whole(text: string)
    ensures text[..|text|] == text && Bytes(text[..0]) == 0 && Units(text[..0]) == 0
  {
  }

  lemma Bounded(text: string, k: nat)
    requires k <= |text|
    ensures Units(text[..k]) <= Bytes(text[..k]) <= Bytes(text)
  {
    BytesPerUnit(text[..k]);
    WidthsRise(text, k, |text|);
    assert text[..|text|] == text;
  }
}

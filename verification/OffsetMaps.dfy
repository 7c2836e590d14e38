/**
  Offset maps between UTF-8 bytes, UTF-16 units and characters: the dense tables with binary search
  in both directions and the ASCII shortcut.
 */
module OffsetMaps {
  import opened Common
  import opened Text

  datatype MapError = InvalidPackage | InvalidBindingOffset(offset: nat)

  /** Pairs of a byte offset and the offset in another unit, one for every boundary. */
  type Table = seq<(nat, nat)>

  ghost predicate TableOf(table: Table, text: string, width: string -> nat) {
    && |table| == |text| + 1
    && forall k :: 0 <= k <= |text| ==> table[k] == (Bytes(text[..k]), width(text[..k]))
  }

  // ---------- binary search ----------

  function Bytewise(pair: (nat, nat)): nat { pair.0 }

  function Otherwise(pair: (nat, nat)): nat { pair.1 }

  ghost predicate Rising(table: Table, key: ((nat, nat)) -> nat) {
    forall j, k :: 0 <= j < k < |table| ==> key(table[j]) < key(table[k])
  }

  /** Bisects `table[lo..hi]` for the entry with key `x`. */
  function Bisect(table: Table, key: ((nat, nat)) -> nat, x: nat, lo: nat, hi: nat): (r: Option<nat>)
    requires lo <= hi <= |table|
    ensures r.Some? ==> lo <= r.value < hi && key(table[r.value]) == x
    decreases hi - lo
  {
    if lo == hi then None
    else
      var mid := (lo + hi) / 2;
      if key(table[mid]) == x then Some(mid)
      else if key(table[mid]) < x then Bisect(table, key, x, mid + 1, hi)
      else Bisect(table, key, x, lo, mid)
  }

  lemma {:induction false} BisectFinds(table: Table, key: ((nat, nat)) -> nat, lo: nat, hi: nat, k: nat)
    requires Rising(table, key) && lo <= k < hi <= |table|
    ensures Bisect(table, key, key(table[k]), lo, hi) == Some(k)
    decreases hi - lo
  {
    var mid := (lo + hi) / 2;
    if mid < k {
      assert key(table[mid]) < key(table[k]);
      BisectFinds(table, key, mid + 1, hi, k);
    } else if k < mid {
      assert key(table[k]) < key(table[mid]);
      BisectFinds(table, key, lo, mid, k);
    }
  }

  function LookUp(table: Table, key: ((nat, nat)) -> nat, value: ((nat, nat)) -> nat, x: nat): Result<nat, MapError> {
    match Bisect(table, key, x, 0, |table|)
    case None => Err(InvalidBindingOffset(x))
    case Some(k) => Ok(value(table[k]))
  }

  /** Both columns of a boundary table rise, so both directions find every boundary. */
  lemma TableRises(table: Table, text: string, width: string -> nat)
    requires TableOf(table, text, width) && (width == Units || width == Characters)
    ensures Rising(table, Bytewise) && Rising(table, Otherwise)
  {
    forall j, k | 0 <= j < k < |table| ensures table[j].0 < table[k].0 && table[j].1 < table[k].1 {
      WidthsRise(text, j, k);
    }
  }

  function Characters(s: string): nat { |s| }

  /** A table translates the byte offset of a boundary into its other offset and back, and refuses
      everything else. */
  lemma TableTranslates(table: Table, text: string, width: string -> nat, b: nat, u: nat)
    requires TableOf(table, text, width) && (width == Units || width == Characters)
    ensures LookUp(table, Bytewise, Otherwise, b) == Ok(u) <==> AtBoundary(text, width, b, u)
    ensures LookUp(table, Otherwise, Bytewise, u) == Ok(b) <==> AtBoundary(text, width, b, u)
  {
    hide Bisect;
    TableRises(table, text, width);
    if AtBoundary(text, width, b, u) {
      var k :| 0 <= k <= |text| && Bytes(text[..k]) == b && width(text[..k]) == u;
      BisectFinds(table, Bytewise, 0, |table|, k);
      BisectFinds(table, Otherwise, 0, |table|, k);
    }
    if LookUp(table, Bytewise, Otherwise, b) == Ok(u) {
      var k := Bisect(table, Bytewise, b, 0, |table|).value;
      assert Bytes(text[..k]) == b && width(text[..k]) == u;
    }
    if LookUp(table, Otherwise, Bytewise, u) == Ok(b) {
      var k := Bisect(table, Otherwise, u, 0, |table|).value;
      assert Bytes(text[..k]) == b && width(text[..k]) == u;
    }
  }

  /** Some boundary of the text has byte offset `b` and offset `u` in the other unit. */
  ghost predicate AtBoundary(text: string, width: string -> nat, b: nat, u: nat) {
    exists k :: 0 <= k <= |text| && Bytes(text[..k]) == b && width(text[..k]) == u
  }

  // ---------- UTF-16 ----------

  datatype Utf16OffsetMap = Identity(byteLen: nat) | Boundaries(table: Table)

  predicate IsAscii(text: string) {
    forall k :: 0 <= k < |text| ==> text[k] < '\U{80}'
  }

  ghost predicate Utf16MapOf(map_: Utf16OffsetMap, text: string) {
    match map_
    case Identity(byteLen) => IsAscii(text) && byteLen == Bytes(text)
    case Boundaries(table) => TableOf(table, text, Units)
  }

  /** Builds the map unless the text's bytes do not fit 32 bits. */
  method NewUtf16OffsetMap(text: string) returns (r: Result<Utf16OffsetMap, MapError>)
    ensures r.Ok? <==> Bytes(text) <= U32_MAX
    ensures r.Ok? ==> Utf16MapOf(r.value, text)
    ensures r.Err? ==> r.error == InvalidPackage
  {
    hide Bytes, Units;
    if IsAscii(text) {
      AsciiOffsets(text, |text|);
      assert text[..|text|] == text;
      return if |text| > U32_MAX then Err(InvalidPackage) else Ok(Identity(|text|));
    }
    Prefixes(text, 0);
    var boundaries: Table := [(0, 0)];
    var utf16Offset: nat, byteStart: nat := 0, 0;
    for k := 0 to |text|
      invariant utf16Offset == Units(text[..k]) && byteStart == Bytes(text[..k]) <= U32_MAX
      invariant |boundaries| == k + 1
      invariant forall j :: 0 <= j <= k ==> boundaries[j] == (Bytes(text[..j]), Units(text[..j]))
    {
      BytesStep(text, k);
      Prefixes(text, k + 1);
      if utf16Offset + Utf16Len(text[k]) > U32_MAX { return Err(InvalidPackage); }
      utf16Offset := utf16Offset + Utf16Len(text[k]);
      var byteEnd := byteStart + Utf8Len(text[k]);
      if byteEnd > U32_MAX { return Err(InvalidPackage); }
      boundaries := boundaries + [(byteEnd, utf16Offset)];
      byteStart := byteEnd;
    }
    assert text[..|text|] == text;
    r := Ok(Boundaries(boundaries));
  }

  lemma Prefixes(text: string, k: nat)
    requires k <= |text|
    ensures Bytes(text[..0]) == Units(text[..0]) == 0
    ensures k <= Units(text[..k]) <= Bytes(text[..k]) <= Bytes(text)
  {
    WidthsRise(text, k, |text|);
    BytesPerUnit(text[..k]);
    assert text[..|text|] == text;
  }

  lemma {:induction false} AsciiOffsets(text: string, k: nat)
    requires IsAscii(text) && k <= |text|
    ensures Bytes(text[..k]) == Units(text[..k]) == k
  {
    hide Bytes, Units;
    Prefixes(text, 0);
    if k > 0 {
      AsciiOffsets(text, k - 1);
      BytesStep(text, k - 1);
    }
  }

  function Convert(map_: Utf16OffsetMap, offset: nat): Result<nat, MapError> {
    match map_
    case Identity(byteLen) => if offset <= byteLen then Ok(offset) else Err(InvalidBindingOffset(offset))
    case Boundaries(table) => LookUp(table, Bytewise, Otherwise, offset)
  }

  function ByteOffset(map_: Utf16OffsetMap, utf16Offset: nat): Result<nat, MapError> {
    match map_
    case Identity(byteLen) => if utf16Offset <= byteLen then Ok(utf16Offset) else Err(InvalidBindingOffset(utf16Offset))
    case Boundaries(table) => LookUp(table, Otherwise, Bytewise, utf16Offset)
  }

  /** The shortcut for ASCII text answers as the boundary table would, in both directions. */
  lemma AsciiShortcut(text: string, table: Table, x: nat)
    requires IsAscii(text) && TableOf(table, text, Units)
    ensures Convert(Identity(Bytes(text)), x) == Convert(Boundaries(table), x)
    ensures ByteOffset(Identity(Bytes(text)), x) == ByteOffset(Boundaries(table), x)
  {
    hide Bisect;
    AsciiOffsets(text, |text|);
    assert text[..|text|] == text;
    if x <= |text| {
      AsciiOffsets(text, x);
      TableRises(table, text, Units);
      BisectFinds(table, Bytewise, 0, |table|, x);
      BisectFinds(table, Otherwise, 0, |table|, x);
    } else {
      forall k | 0 <= k <= |text| ensures table[k] == (k, k) { AsciiOffsets(text, k); }
    }
  }

  /** A map translates exactly the boundaries, and its two directions are inverse to each other. */
  lemma Utf16MapTranslates(map_: Utf16OffsetMap, text: string, b: nat, u: nat)
    requires Utf16MapOf(map_, text)
    ensures Convert(map_, b) == Ok(u) <==> AtBoundary(text, Units, b, u)
    ensures ByteOffset(map_, u) == Ok(b) <==> AtBoundary(text, Units, b, u)
  {
    var table: Table := seq(|text| + 1, (k: nat) requires k <= |text| => (Bytes(text[..k]), Units(text[..k])));
    TableTranslates(table, text, Units, b, u);
    match map_
    case Identity(_) =>
      AsciiShortcut(text, table, b);
      AsciiShortcut(text, table, u);
    case Boundaries(own) => assert own == table;
  }

  lemma Utf16RoundTrip(map_: Utf16OffsetMap, text: string, b: nat, u: nat)
    requires Utf16MapOf(map_, text)
    ensures Convert(map_, b) == Ok(u) <==> ByteOffset(map_, u) == Ok(b)
  {
    Utf16MapTranslates(map_, text, b, u);
  }

  // ---------- characters ----------

  datatype CharacterOffsetMap = CharacterOffsetMap(boundaries: Table)

  method NewCharacterOffsetMap(text: string) returns (r: Result<CharacterOffsetMap, MapError>)
    ensures r.Ok? <==> Bytes(text) <= U32_MAX
    ensures r.Ok? ==> TableOf(r.value.boundaries, text, Characters)
    ensures r.Err? ==> r.error == InvalidPackage
  {
    hide Bytes, Units;
    Prefixes(text, 0);
    var boundaries: Table := [(0, 0)];
    var byteStart: nat := 0;
    for k := 0 to |text|
      invariant byteStart == Bytes(text[..k]) <= U32_MAX
      invariant |boundaries| == k + 1
      invariant forall j :: 0 <= j <= k ==> boundaries[j] == (Bytes(text[..j]), j)
    {
      BytesStep(text, k);
      Prefixes(text, k + 1);
      if k + 1 > U32_MAX { return Err(InvalidPackage); }
      var byteEnd := byteStart + Utf8Len(text[k]);
      if byteEnd > U32_MAX { return Err(InvalidPackage); }
      boundaries := boundaries + [(byteEnd, k + 1)];
      byteStart := byteEnd;
    }
    assert text[..|text|] == text;
    r := Ok(CharacterOffsetMap(boundaries));
  }

  function ConvertToCharacters(map_: CharacterOffsetMap, byteOffset: nat): Result<nat, MapError> {
    LookUp(map_.boundaries, Bytewise, Otherwise, byteOffset)
  }

  function ByteOffsetOfCharacter(map_: CharacterOffsetMap, characterOffset: nat): Result<nat, MapError> {
    LookUp(map_.boundaries, Otherwise, Bytewise, characterOffset)
  }

  /** Character offsets are translated exactly at the boundaries, and back again. */
  lemma CharacterRoundTrip(map_: CharacterOffsetMap, text: string, b: nat, c: nat)
    requires TableOf(map_.boundaries, text, Characters)
    ensures ConvertToCharacters(map_, b) == Ok(c) <==> c <= |text| && b == Bytes(text[..c])
    ensures ByteOffsetOfCharacter(map_, c) == Ok(b) <==> c <= |text| && b == Bytes(text[..c])
  {
    TableTranslates(map_.boundaries, text, Characters, b, c);
    if c <= |text| && b == Bytes(text[..c]) { assert Characters(text[..c]) == c; }
  }
}

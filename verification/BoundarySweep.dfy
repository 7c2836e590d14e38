/**
  Converting the offsets of external detections: one sweep over the text resolves only the offsets
  that were asked for, in whatever unit they were given.
 */
module BoundarySweep {
  import opened Common
  import opened Text
  import opened Sorting
  import opened OffsetMaps

  datatype OffsetUnit = Utf8Byte | Utf16CodeUnit | UnicodeCodePoint

  datatype BoundaryOffsets = BoundaryOffsets(utf8Byte: nat, utf16CodeUnit: nat, unicodeCodePoint: nat) {
    function Get(u: OffsetUnit): nat {
      match u
      case Utf8Byte => utf8Byte
      case Utf16CodeUnit => utf16CodeUnit
      case UnicodeCodePoint => unicodeCodePoint
    }
  }

  /** The offsets of boundary `k`. */
  function At(text: string, k: nat): BoundaryOffsets
    requires k <= |text|
  {
    BoundaryOffsets(Bytes(text[..k]), Units(text[..k]), k)
  }

  /** `offset` is boundary `k` in the unit, and its byte offset fits 32 bits. */
  ghost predicate Resolves(text: string, u: OffsetUnit, offset: nat, k: nat) {
    k <= |text| && At(text, k).Get(u) == offset && Bytes(text[..k]) <= U32_MAX
  }

  lemma OffsetsRise(text: string, u: OffsetUnit, j: nat, k: nat)
    requires j < k <= |text|
    ensures At(text, j).Get(u) < At(text, k).Get(u)
    ensures Bytes(text[..j]) < Bytes(text[..k])
  {
    WidthsRise(text, j, k);
  }

  datatype SweepError = NotOnBoundary | DocumentTooLong | OutsideDocument

  /** The progress of one sweep: how many requests are behind it, and what they resolved to. */
  class Sweep {
    const requested: seq<nat>
    var requestedIndex: nat
    var resolved: map<nat, BoundaryOffsets>

    ghost predicate Valid() reads this {
      requestedIndex <= |requested| && Ascending(requested)
    }

    constructor (requested: seq<nat>)
      requires Ascending(requested)
      ensures Valid() && this.requested == requested && requestedIndex == 0 && resolved == map[]
    {
      this.requested := requested;
      requestedIndex := 0;
      resolved := map[];
    }

    /** Takes one boundary: a request at it is resolved, a request before it can no longer be. */
    method RecordRequestedBoundary(boundary: BoundaryOffsets, inputUnit: OffsetUnit) returns (r: Result<(), SweepError>)
      requires Valid()
      modifies this
      ensures Valid()
      ensures var hit := old(requestedIndex) < |requested| && requested[old(requestedIndex)] == boundary.Get(inputUnit);
              && requestedIndex == old(requestedIndex) + (if hit then 1 else 0)
              && resolved == if hit then old(resolved)[boundary.Get(inputUnit) := boundary] else old(resolved)
      ensures r == if requestedIndex < |requested| && requested[requestedIndex] < boundary.Get(inputUnit)
                   then Err(NotOnBoundary) else Ok(())
    {
      var inputOffset := boundary.Get(inputUnit);
      ghost var before := requestedIndex;
      while requestedIndex < |requested| && requested[requestedIndex] == inputOffset
        invariant Valid() && before <= requestedIndex
        invariant requestedIndex > before ==> requestedIndex == before + 1 && requested[before] == inputOffset
        invariant resolved == if requestedIndex > before then old(resolved)[inputOffset := boundary] else old(resolved)
        decreases |requested| - requestedIndex
      {
        resolved := resolved[inputOffset := boundary];
        requestedIndex := requestedIndex + 1;
      }
      if requestedIndex < |requested| && requested[requestedIndex] < inputOffset {
        return Err(NotOnBoundary);
      }
      r := Ok(());
    }
  }

  /** After boundary `k`: the requests so far are resolved, the others lie behind boundary `k`. */
  ghost predicate SweptTo(text: string, u: OffsetUnit, requested: seq<nat>, index: nat,
                          resolved: map<nat, BoundaryOffsets>, k: nat)
  {
    && k <= |text| && index <= |requested|
    && (forall o :: o in resolved <==> o in requested[..index])
    && (forall o :: o in resolved ==> ResolvedWell(text, u, resolved, o))
    && (forall j :: index <= j < |requested| ==> requested[j] > At(text, k).Get(u))
  }

  ghost predicate ResolvedWell(text: string, u: OffsetUnit, resolved: map<nat, BoundaryOffsets>, o: nat) {
    o in resolved && exists k :: Resolves(text, u, o, k) && resolved[o] == At(text, k)
  }

  /** A resolved request is the coordinate of its boundary in the unit it was given in. */
  lemma ResolvedCoordinate(text: string, u: OffsetUnit, resolved: map<nat, BoundaryOffsets>, o: nat)
    requires ResolvedWell(text, u, resolved, o)
    ensures u == Utf8Byte ==> resolved[o].utf8Byte == o
    ensures u == Utf16CodeUnit ==> resolved[o].utf16CodeUnit == o
    ensures u == UnicodeCodePoint ==> resolved[o].unicodeCodePoint == o
    ensures exists k: nat :: k <= |text| && resolved[o].utf8Byte == Bytes(text[..k])
              && resolved[o].utf16CodeUnit == Units(text[..k]) && resolved[o].unicodeCodePoint == k
  {
    var k: nat :| Resolves(text, u, o, k) && resolved[o] == At(text, k);
    assert k <= |text| && resolved[o].utf8Byte == Bytes(text[..k]);
  }

  /** A request that lies strictly between two neighbouring boundaries is none of them. */
  lemma BetweenBoundaries(text: string, u: OffsetUnit, offset: nat, k: nat)
    requires k < |text| && At(text, k).Get(u) < offset < At(text, k + 1).Get(u)
    ensures !exists j :: Resolves(text, u, offset, j)
  {
    hide At;
    forall j: nat | Resolves(text, u, offset, j) ensures false {
      if j < k { OffsetsRise(text, u, j, k); }
      if k + 1 < j { OffsetsRise(text, u, k + 1, j); }
    }
  }

  /** Past the last boundary there is none, and past the last byte that fits none counts. */
  lemma BehindBoundary(text: string, u: OffsetUnit, offset: nat, k: nat)
    requires k <= |text| && At(text, k).Get(u) < offset
    requires k == |text| || Bytes(text[..k + 1]) > U32_MAX
    ensures !exists j :: Resolves(text, u, offset, j)
  {
    hide At;
    forall j: nat | Resolves(text, u, offset, j) ensures false {
      if j < k { OffsetsRise(text, u, j, k); }
      if k + 1 < j { OffsetsRise(text, u, k + 1, j); }
    }
  }

  lemma SweepStep(text: string, u: OffsetUnit, requested: seq<nat>, index: nat,
                   resolved: map<nat, BoundaryOffsets>, k: nat, boundary: BoundaryOffsets)
    requires k < |text| && Ascending(requested) && SweptTo(text, u, requested, index, resolved, k)
    requires boundary == At(text, k + 1) && boundary.utf8Byte <= U32_MAX
    ensures var hit := index < |requested| && requested[index] == boundary.Get(u);
            var index' := index + (if hit then 1 else 0);
            var resolved' := if hit then resolved[boundary.Get(u) := boundary] else resolved;
            if index' < |requested| && requested[index'] < boundary.Get(u) then !AllResolve(text, u, requested)
            else SweptTo(text, u, requested, index', resolved', k + 1)
  {
    hide At, AllResolve, Resolves, ResolvedWell, SweptTo, Ascending;
    if index < |requested| && requested[index] == boundary.Get(u) {
      SweepHits(text, u, requested, index, resolved, k, boundary);
    } else if index < |requested| && requested[index] < boundary.Get(u) {
      SweepMisses(text, u, requested, index, resolved, k);
    } else {
      SweepPasses(text, u, requested, index, resolved, k);
    }
  }

  lemma SweepHits(text: string, u: OffsetUnit, requested: seq<nat>, index: nat,
                   resolved: map<nat, BoundaryOffsets>, k: nat, boundary: BoundaryOffsets)
    requires k < |text| && Ascending(requested) && SweptTo(text, u, requested, index, resolved, k)
    requires boundary == At(text, k + 1) && boundary.utf8Byte <= U32_MAX
    requires index < |requested| && requested[index] == boundary.Get(u)
    ensures SweptTo(text, u, requested, index + 1, resolved[boundary.Get(u) := boundary], k + 1)
    ensures index + 1 < |requested| ==> requested[index + 1] > boundary.Get(u)
  {
  }

  lemma SweepPasses(text: string, u: OffsetUnit, requested: seq<nat>, index: nat,
                     resolved: map<nat, BoundaryOffsets>, k: nat)
    requires k < |text| && Ascending(requested) && SweptTo(text, u, requested, index, resolved, k)
    requires index < |requested| ==> requested[index] > At(text, k + 1).Get(u)
    ensures SweptTo(text, u, requested, index, resolved, k + 1)
  {
  }

  lemma SweepMisses(text: string, u: OffsetUnit, requested: seq<nat>, index: nat,
                     resolved: map<nat, BoundaryOffsets>, k: nat)
    requires k < |text| && SweptTo(text, u, requested, index, resolved, k)
    requires index < |requested| && requested[index] < At(text, k + 1).Get(u)
    ensures !AllResolve(text, u, requested)
  {
    hide At, Resolves, ResolvedWell;
    BetweenBoundaries(text, u, requested[index], k);
    NotAll(text, u, requested, index);
  }

  lemma NotAll(text: string, u: OffsetUnit, requested: seq<nat>, j: nat)
    requires j < |requested| && !exists k :: Resolves(text, u, requested[j], k)
    ensures !AllResolve(text, u, requested)
  {
    assert requested[j] in requested;
  }

  ghost predicate AllResolve(text: string, u: OffsetUnit, requested: seq<nat>) {
    forall o :: o in requested ==> exists k :: Resolves(text, u, o, k)
  }

  /** The sweep succeeds exactly when every requested offset is a boundary in the input unit, and
      then gives each its byte, UTF-16 and character offsets. */
  method ResolveRequestedBoundaries(text: string, requestedOffsets: seq<U32>, inputUnit: OffsetUnit)
    returns (r: Result<map<nat, BoundaryOffsets>, SweepError>)
    ensures r.Ok? <==> AllResolve(text, inputUnit, requestedOffsets)
    ensures r.Ok? ==> forall o :: o in r.value <==> o in requestedOffsets
    ensures r.Ok? ==> forall o :: o in r.value ==> ResolvedWell(text, inputUnit, r.value, o)
  {
    hide At, Bytes, Units, Resolves, SweptTo, Ascending, ResolvedWell, Dedup, SortNats;
    if requestedOffsets == [] { return Ok(map[]); }
    var requested := Dedup(SortNats(requestedOffsets));
    DedupAscends(SortNats(requestedOffsets));
    var sweep := new Sweep(requested);
    var boundary := BoundaryOffsets(0, 0, 0);
    SweepStarts(text, inputUnit, requested);
    var first := sweep.RecordRequestedBoundary(boundary, inputUnit);
    if first.Err? { return Err(NotOnBoundary); }
    var k: nat := 0;
    while k < |text| && sweep.requestedIndex < |requested|
      invariant k <= |text| && sweep.Valid() && sweep.requested == requested && boundary == At(text, k)
      invariant SweptTo(text, inputUnit, requested, sweep.requestedIndex, sweep.resolved, k)
    {
      NextBoundary(text, k);
      var byteEnd := boundary.utf8Byte + Utf8Len(text[k]);
      if byteEnd > U32_MAX {
        TooLong(text, inputUnit, requested, sweep.requestedIndex, sweep.resolved, k);
        return Err(DocumentTooLong);
      }
      boundary := BoundaryOffsets(byteEnd, boundary.utf16CodeUnit + Utf16Len(text[k]), boundary.unicodeCodePoint + 1);
      SweepStep(text, inputUnit, requested, sweep.requestedIndex, sweep.resolved, k, boundary);
      var recorded := sweep.RecordRequestedBoundary(boundary, inputUnit);
      if recorded.Err? { return Err(recorded.error); }
      k := k + 1;
    }
    if sweep.requestedIndex < |requested| {
      TooLong(text, inputUnit, requested, sweep.requestedIndex, sweep.resolved, k);
      return Err(OutsideDocument);
    }
    Swept(text, inputUnit, requested, sweep.resolved, k);
    r := Ok(sweep.resolved);
  }

  lemma SweepStarts(text: string, u: OffsetUnit, requested: seq<nat>)
    requires Ascending(requested) && requested != []
    ensures At(text, 0) == BoundaryOffsets(0, 0, 0)
    ensures var hit := requested[0] == 0;
            SweptTo(text, u, requested, if hit then 1 else 0, if hit then map[0 := At(text, 0)] else map[], 0)
  {
  }

  lemma NextBoundary(text: string, k: nat)
    requires k < |text|
    ensures var b := At(text, k);
            At(text, k + 1)
            == BoundaryOffsets(b.utf8Byte + Utf8Len(text[k]), b.utf16CodeUnit + Utf16Len(text[k]), k + 1)
    ensures At(text, k).unicodeCodePoint == k && At(text, k + 1).utf8Byte == Bytes(text[..k + 1])
  {
    BytesStep(text, k);
  }

  lemma TooLong(text: string, u: OffsetUnit, requested: seq<nat>, index: nat,
                 resolved: map<nat, BoundaryOffsets>, k: nat)
    requires SweptTo(text, u, requested, index, resolved, k) && index < |requested|
    requires k == |text| || Bytes(text[..k + 1]) > U32_MAX
    ensures !AllResolve(text, u, requested)
  {
    hide At, Resolves;
    BehindBoundary(text, u, requested[index], k);
    assert requested[index] in requested;
  }

  lemma Swept(text: string, u: OffsetUnit, requested: seq<nat>,
               resolved: map<nat, BoundaryOffsets>, k: nat)
    requires SweptTo(text, u, requested, |requested|, resolved, k)
    ensures forall o :: o in resolved <==> o in requested
    ensures forall o :: o in resolved ==> ResolvedWell(text, u, resolved, o)
    ensures AllResolve(text, u, requested)
  {
  }

  /** A resolved offset carries the coordinates that the dense maps give for it. */
  lemma SweepAgreesWithMaps(text: string, u: OffsetUnit, resolved: map<nat, BoundaryOffsets>, o: nat,
                             utf16Map: Utf16OffsetMap, characterMap: CharacterOffsetMap)
    requires ResolvedWell(text, u, resolved, o)
    requires Utf16MapOf(utf16Map, text) && TableOf(characterMap.boundaries, text, Characters)
    ensures resolved[o].Get(u) == o
    ensures Convert(utf16Map, resolved[o].utf8Byte) == Ok(resolved[o].utf16CodeUnit)
    ensures ByteOffset(utf16Map, resolved[o].utf16CodeUnit) == Ok(resolved[o].utf8Byte)
    ensures ConvertToCharacters(characterMap, resolved[o].utf8Byte) == Ok(resolved[o].unicodeCodePoint)
    ensures ByteOffsetOfCharacter(characterMap, resolved[o].unicodeCodePoint) == Ok(resolved[o].utf8Byte)
  {
    hide Convert, ByteOffset, ConvertToCharacters, ByteOffsetOfCharacter, Utf16MapOf, TableOf;
    var k :| Resolves(text, u, o, k) && resolved[o] == At(text, k);
    Utf16MapTranslates(utf16Map, text, resolved[o].utf8Byte, resolved[o].utf16CodeUnit);
    CharacterRoundTrip(characterMap, text, resolved[o].utf8Byte, k);
    assert AtBoundary(text, Units, resolved[o].utf8Byte, resolved[o].utf16CodeUnit);
  }

  // ---------- a whole batch ----------

  datatype Detection = Detection(id: string, name: string, start: U32, end: U32, score: real)

  datatype CallerDetection =
    CallerDetection(start: nat, end: nat, name: string, score: real, providerId: string, detectionId: string)

  datatype ConvertError =
    | Boundary(error: SweepError)
    | DuplicateId(index: nat)
    | UnmappedLabel(index: nat)
    | EmptySpan(index: nat)

  type Coordinates = (BoundaryOffsets, BoundaryOffsets)

  function RequestedOffsets(detections: seq<Detection>): (offsets: seq<U32>)
    ensures forall d :: d in detections ==> d.start in offsets && d.end in offsets
    ensures forall o :: o in offsets ==> exists d :: d in detections && (o == d.start || o == d.end)
  {
    if detections == [] then []
    else
      assert detections == [detections[0]] + detections[1..];
      [detections[0].start, detections[0].end] + RequestedOffsets(detections[1..])
  }

  /** A detection that can be converted: both offsets are boundaries, in order, and its label is mapped. */
  ghost predicate Convertible(text: string, u: OffsetUnit, labelMap: map<string, string>, d: Detection) {
    && d.name in labelMap && d.start < d.end
    && (exists k :: Resolves(text, u, d.start, k)) && (exists k :: Resolves(text, u, d.end, k))
  }

  ghost predicate AllConvertible(text: string, u: OffsetUnit, labelMap: map<string, string>,
                                 detections: seq<Detection>) {
    forall d :: d in detections ==> Convertible(text, u, labelMap, d)
  }

  ghost predicate DistinctIds(detections: seq<Detection>) {
    forall i, j :: 0 <= i < j < |detections| ==> detections[i].id != detections[j].id
  }

  /** `c` is `d` with its label mapped and its span moved to bytes, at the same boundaries. */
  ghost predicate ConvertedFrom(text: string, u: OffsetUnit, providerId: string, labelMap: map<string, string>,
                                d: Detection, c: CallerDetection, at: Coordinates) {
    && d.name in labelMap
    && c == CallerDetection(at.0.utf8Byte, at.1.utf8Byte, labelMap[d.name], d.score, providerId, d.id)
    && exists k, m :: Resolves(text, u, d.start, k) && Resolves(text, u, d.end, m)
         && at == (At(text, k), At(text, m)) && k < m
  }

  /** Order of offsets is order of boundaries, whatever the unit. */
  lemma OrderKept(text: string, u: OffsetUnit, resolved: map<nat, BoundaryOffsets>, a: nat,
                   b: nat) returns (k: nat, m: nat)
    requires ResolvedWell(text, u, resolved, a) && ResolvedWell(text, u, resolved, b)
    ensures Resolves(text, u, a, k) && resolved[a] == At(text, k)
    ensures Resolves(text, u, b, m) && resolved[b] == At(text, m)
    ensures resolved[a].utf8Byte < resolved[b].utf8Byte <==> a < b
    ensures a < b <==> k < m
  {
    hide Bytes, Units;
    k :| Resolves(text, u, a, k) && resolved[a] == At(text, k);
    m :| Resolves(text, u, b, m) && resolved[b] == At(text, m);
    if k < m { OffsetsRise(text, u, k, m); }
    if m < k { OffsetsRise(text, u, m, k); }
  }

  /** The detections so far have distinct ids, could be converted, and were. */
  ghost predicate Converting(text: string, u: OffsetUnit, providerId: string, labelMap: map<string, string>,
                             done: seq<Detection>, provenance: set<string>, converted: seq<CallerDetection>,
                             spans: seq<Coordinates>)
  {
    && (forall id :: id in provenance <==> exists j :: 0 <= j < |done| && done[j].id == id)
    && DistinctIds(done) && |converted| == |spans| == |done|
    && forall j :: 0 <= j < |done| ==>
         Convertible(text, u, labelMap, done[j])
           && ConvertedFrom(text, u, providerId, labelMap, done[j], converted[j], spans[j])
  }

  lemma NothingConverted(text: string, u: OffsetUnit, providerId: string, labelMap: map<string, string>)
    ensures Converting(text, u, providerId, labelMap, [], {}, [], [])
  {
  }

  lemma Repeated(text: string, u: OffsetUnit, providerId: string, labelMap: map<string, string>,
                  detections: seq<Detection>,
                  i: nat, provenance: set<string>, converted: seq<CallerDetection>,
                  spans: seq<Coordinates>)
    requires i < |detections| && Converting(text, u, providerId, labelMap, detections[..i], provenance, converted,
      spans)
    requires detections[i].id in provenance
    ensures !DistinctIds(detections)
  {
    hide Convertible, ConvertedFrom;
    var j :| 0 <= j < i && detections[..i][j].id == detections[i].id;
    assert detections[j].id == detections[i].id;
  }

  lemma ConvertingStep(text: string, u: OffsetUnit, providerId: string,
                        labelMap: map<string, string>, done: seq<Detection>,
                        provenance: set<string>, converted: seq<CallerDetection>,
                        spans: seq<Coordinates>,
                        d: Detection, c: CallerDetection, at: Coordinates)
    requires Converting(text, u, providerId, labelMap, done, provenance, converted, spans) && d.id !in provenance
    requires Convertible(text, u, labelMap, d) && ConvertedFrom(text, u, providerId, labelMap, d, c, at)
    ensures Converting(text, u, providerId, labelMap, done + [d], provenance + {d.id}, converted + [c], spans + [at])
  {
    hide Convertible, ConvertedFrom;
    forall id ensures id in provenance + {d.id} <==> exists j :: 0 <= j < |done + [d]| && (done + [d])[j].id == id {
      if id in provenance {
        var j :| 0 <= j < |done| && done[j].id == id;
        assert (done + [d])[j].id == id;
      }
      if id == d.id { assert (done + [d])[|done|].id == id; }
    }
  }

  lemma AllConverted(text: string, u: OffsetUnit, providerId: string,
                      labelMap: map<string, string>, detections: seq<Detection>,
                      provenance: set<string>, converted: seq<CallerDetection>,
                      spans: seq<Coordinates>)
    requires Converting(text, u, providerId, labelMap, detections, provenance, converted, spans)
    ensures DistinctIds(detections) && |converted| == |spans| == |detections|
    ensures AllConvertible(text, u, labelMap, detections)
    ensures forall i :: 0 <= i < |detections| ==>
      ConvertedFrom(text, u, providerId, labelMap, detections[i], converted[i], spans[i])
  {
  }

  method ConvertOne(text: string, u: OffsetUnit, providerId: string, labelMap: map<string, string>, d: Detection,
                    i: nat,
                    coordinates: map<nat, BoundaryOffsets>)
    returns (r: Result<(CallerDetection, Coordinates), ConvertError>)
    requires ResolvedWell(text, u, coordinates, d.start) && ResolvedWell(text, u, coordinates, d.end)
    ensures r.Ok? <==> Convertible(text, u, labelMap, d)
    ensures r.Ok? ==> ConvertedFrom(text, u, providerId, labelMap, d, r.value.0, r.value.1)
  {
    hide Convertible, ConvertedFrom;
    OneDetection(text, u, providerId, labelMap, d, coordinates);
    if d.name !in labelMap { return Err(UnmappedLabel(i)); }
    var start, end := coordinates[d.start], coordinates[d.end];
    if start.utf8Byte >= end.utf8Byte { return Err(EmptySpan(i)); }
    r := Ok((CallerDetection(start.utf8Byte, end.utf8Byte, labelMap[d.name], d.score, providerId, d.id), (start, end)));
  }

  /** The coordinates hold every offset that the detections ask for. */
  ghost predicate AllWell(text: string, u: OffsetUnit, detections: seq<Detection>,
                          coordinates: map<nat, BoundaryOffsets>) {
    forall d :: d in detections ==>
      ResolvedWell(text, u, coordinates, d.start) && ResolvedWell(text, u, coordinates, d.end)
  }

  lemma RequestedAreWell(text: string, u: OffsetUnit, detections: seq<Detection>,
                         coordinates: map<nat, BoundaryOffsets>)
    requires forall o :: o in RequestedOffsets(detections) ==> ResolvedWell(text, u, coordinates, o)
    ensures AllWell(text, u, detections, coordinates)
  {
    hide ResolvedWell;
  }

  /** One round of the loop: what the two early returns refute, and what is known behind them. */
  lemma RoundOf(text: string, u: OffsetUnit, providerId: string, labelMap: map<string, string>,
                detections: seq<Detection>, coordinates: map<nat, BoundaryOffsets>, i: nat,
                provenance: set<string>, converted: seq<CallerDetection>, spans: seq<Coordinates>)
    requires i < |detections| && AllWell(text, u, detections, coordinates)
    requires Converting(text, u, providerId, labelMap, detections[..i], provenance, converted, spans)
    ensures ResolvedWell(text, u, coordinates, detections[i].start)
    ensures ResolvedWell(text, u, coordinates, detections[i].end)
    ensures detections[i].id in provenance ==> !DistinctIds(detections)
    ensures !Convertible(text, u, labelMap, detections[i]) ==> !AllConvertible(text, u, labelMap, detections)
    ensures detections[..i + 1] == detections[..i] + [detections[i]]
  {
    hide ResolvedWell, Convertible, ConvertedFrom, Converting, DistinctIds;
    assert detections[i] in detections;
    if detections[i].id in provenance {
      Repeated(text, u, providerId, labelMap, detections, i, provenance, converted, spans);
    }
  }

  method ConvertDetections(text: string, u: OffsetUnit, providerId: string, labelMap: map<string, string>,
                           detections: seq<Detection>)
    returns (r: Result<(seq<CallerDetection>, seq<Coordinates>), ConvertError>)
    ensures r.Ok? <==> DistinctIds(detections) && AllConvertible(text, u, labelMap, detections)
    ensures r.Ok? ==> |r.value.0| == |r.value.1| == |detections|
    ensures r.Ok? ==> forall i :: 0 <= i < |detections| ==>
      ConvertedFrom(text, u, providerId, labelMap, detections[i], r.value.0[i], r.value.1[i])
  {
    hide At, Resolves, ResolvedWell, AllResolve, Convertible, ConvertedFrom, Converting, DistinctIds,
      RequestedOffsets, AllConvertible, AllWell;
    var resolved := ResolveRequestedBoundaries(text, RequestedOffsets(detections), u);
    if resolved.Err? {
      NotAllConvertible(text, u, labelMap, detections);
      return Err(Boundary(resolved.error));
    }
    var coordinates := resolved.value;
    var provenance: set<string> := {};
    var converted: seq<CallerDetection> := [];
    var spans: seq<Coordinates> := [];
    NothingConverted(text, u, providerId, labelMap);
    RequestedAreWell(text, u, detections, coordinates);
    for i := 0 to |detections|
      invariant Converting(text, u, providerId, labelMap, detections[..i], provenance, converted, spans)
    {
      var d := detections[i];
      RoundOf(text, u, providerId, labelMap, detections, coordinates, i, provenance, converted, spans);
      if d.id in provenance { return Err(DuplicateId(i)); }
      var one := ConvertOne(text, u, providerId, labelMap, d, i, coordinates);
      if one.Err? { return Err(one.error); }
      ConvertingStep(text, u, providerId, labelMap, detections[..i], provenance, converted, spans, d, one.value.0,
        one.value.1);
      provenance := provenance + {d.id};
      converted := converted + [one.value.0];
      spans := spans + [one.value.1];
    }
    assert detections[..|detections|] == detections;
    AllConverted(text, u, providerId, labelMap, detections, provenance, converted, spans);
    r := Ok((converted, spans));
  }

  lemma NotAllConvertible(text: string, u: OffsetUnit, labelMap: map<string, string>,
                           detections: seq<Detection>)
    requires !AllResolve(text, u, RequestedOffsets(detections))
    ensures !AllConvertible(text, u, labelMap, detections)
  {
  }

  lemma OneDetection(text: string, u: OffsetUnit, providerId: string,
                      labelMap: map<string, string>, d: Detection,
                      coordinates: map<nat, BoundaryOffsets>)
    requires ResolvedWell(text, u, coordinates, d.start) && ResolvedWell(text, u, coordinates, d.end)
    ensures Convertible(text, u, labelMap, d)
       <==> d.name in labelMap && coordinates[d.start].utf8Byte < coordinates[d.end].utf8Byte
    ensures Convertible(text, u, labelMap, d) ==>
      var start, end := coordinates[d.start], coordinates[d.end];
      ConvertedFrom(text, u, providerId, labelMap, d,
                    CallerDetection(start.utf8Byte, end.utf8Byte, labelMap[d.name], d.score, providerId, d.id),
                      (start, end))
  {
    hide At, Resolves;
    var k, m := OrderKept(text, u, coordinates, d.start, d.end);
  }
}

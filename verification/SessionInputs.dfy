/** The bounded collection of inputs for one session plan, with totals kept as inputs are added. */
module SessionInputs {
  import opened Common

  const SESSION_CALLER_MAX_INPUTS: nat := 100_000
  const CALLER_DETECTION_MAX_COUNT: nat := 1_000_000
  const CALLER_DETECTION_TEXT_MAX_BYTES: nat := 64 * 1024 * 1024
  const CALLER_DETECTION_REQUEST_JSON_MAX_BYTES: nat := 16 * 1024 * 1024
  const SESSION_CALLER_INPUTS_JSON_MAX_BYTES: nat := 64 * 1024 * 1024

  /** An input as retained: its canonical JSON object in bytes, its text's size and its detections. */
  datatype Input = Input(canonicalJson: string, textBytes: nat, detections: nat)

  /** An input as offered: what decoding its request and validating its detections would yield. */
  datatype Offer<E> = Offer(requestJsonBytes: nat, textBytes: nat, canonicalJson: Result<string, E>,
                            decoded: Result<nat, E>, validated: Result<(), E>)

  datatype Limit = RequestJson | SingleText | InputCount | InputsJson | DetectionCount | TextTotal

  datatype InputError<E> = LimitExceeded(limit: Limit, actual: nat) | Invalid(error: E)

  /** The JSON array that the inputs would be sent as. */
  function JsonArray(inputs: seq<Input>): string {
    "[" + Joined(inputs) + "]"
  }

  function Joined(inputs: seq<Input>): string {
    if inputs == [] then ""
    else
      var last := inputs[|inputs| - 1].canonicalJson;
      if |inputs| == 1 then last else Joined(inputs[..|inputs| - 1]) + "," + last
  }

  function TextBytes(inputs: seq<Input>): nat {
    if inputs == [] then 0 else TextBytes(inputs[..|inputs| - 1]) + inputs[|inputs| - 1].textBytes
  }

  function Detections(inputs: seq<Input>): nat {
    if inputs == [] then 0 else Detections(inputs[..|inputs| - 1]) + inputs[|inputs| - 1].detections
  }

  /** Within every limit of a whole plan. */
  predicate Bounded(inputs: seq<Input>) {
    && |inputs| <= SESSION_CALLER_MAX_INPUTS && |JsonArray(inputs)| <= SESSION_CALLER_INPUTS_JSON_MAX_BYTES
    && TextBytes(inputs) <= CALLER_DETECTION_TEXT_MAX_BYTES && Detections(inputs) <= CALLER_DETECTION_MAX_COUNT
  }

  predicate Admissible<E>(inputs: seq<Input>, offer: Offer<E>) {
    && offer.requestJsonBytes <= CALLER_DETECTION_REQUEST_JSON_MAX_BYTES
    && offer.canonicalJson.Ok? && offer.decoded.Ok? && offer.validated.Ok?
    && Bounded(inputs + [Input(offer.canonicalJson.value, offer.textBytes, offer.decoded.value)])
  }

  // ---------- what is reported ----------

  function Over<E>(limit: Limit, actual: nat, most: nat): Option<InputError<E>> {
    if actual > most then Some(LimitExceeded(limit, actual)) else None
  }

  function Failed<T, E>(r: Result<T, E>): Option<InputError<E>> {
    if r.Err? then Some(Invalid(r.error)) else None
  }

  /** What is wrong with an input that is added to a batch, in the order in which it is looked for. */
  ghost function Complaints<E>(inputs: seq<Input>, offer: Offer<E>): seq<Option<InputError<E>>> {
    [ Over(RequestJson, offer.requestJsonBytes, 16_777_216),
      Over(SingleText, offer.textBytes, 67_108_864),
      Over(InputCount, |inputs| + 1, 100_000),
      Failed(offer.canonicalJson),
      if offer.canonicalJson.Err? then None
      else Over(InputsJson, |JsonArray(inputs + [Input(offer.canonicalJson.value, 0, 0)])|, 67_108_864),
      Failed(offer.decoded),
      if offer.decoded.Err? then None else Over(DetectionCount, Detections(inputs) + offer.decoded.value, 1_000_000),
      Over(TextTotal, TextBytes(inputs) + offer.textBytes, 67_108_864),
      Failed(offer.validated) ]
  }

  /** The first complaint, if there is any. */
  ghost predicate IsFirst<E>(complaints: seq<Option<InputError<E>>>, error: InputError<E>) {
    exists k :: 0 <= k < |complaints| && complaints[k] == Some(error) && forall j :: 0 <= j < k ==> complaints[j].None?
  }

  lemma FirstAt<E>(complaints: seq<Option<InputError<E>>>, k: nat)
    requires k < |complaints| && complaints[k].Some? && forall j :: 0 <= j < k ==> complaints[j].None?
    ensures IsFirst(complaints, complaints[k].value)
  {
  }

  class SessionCallerInputs {
    var inputs: seq<Input>
    var detectionCount: nat
    var textBytes: nat
    var encodedJsonBytes: nat

    /** The running totals are those of the retained inputs, and none exceeds its limit. */
    ghost predicate Valid() reads this {
      && Bounded(inputs) && detectionCount == Detections(inputs) && textBytes == TextBytes(inputs)
      && encodedJsonBytes == |JsonArray(inputs)|
    }

    constructor ()
      ensures Valid() && inputs == []
    {
      inputs := [];
      detectionCount := 0;
      textBytes := 0;
      encodedJsonBytes := 2;
    }

    /** Takes the input exactly when it is valid and the batch with it stays within every limit, and
        otherwise leaves the batch as it was and reports the first thing that is wrong. */
    method PushUtf16BindingJson<E>(offer: Offer<E>) returns (r: Result<(), InputError<E>>)
      requires Valid()
      modifies this
      ensures Valid()
      ensures r.Ok? <==> Admissible(old(inputs), offer)
      ensures r.Ok? ==> inputs == old(inputs) + [Input(offer.canonicalJson.value, offer.textBytes, offer.decoded.value)]
      ensures r.Err? ==> inputs == old(inputs) && IsFirst(Complaints(inputs, offer), r.error)
    {
      hide Bounded, JsonArray, TextBytes, Detections, IsFirst;
      InputsGrow(inputs, offer);
      ghost var complaints := Complaints(inputs, offer);
      if offer.requestJsonBytes > CALLER_DETECTION_REQUEST_JSON_MAX_BYTES {
        FirstAt(complaints, 0);
        return Err(LimitExceeded(RequestJson, offer.requestJsonBytes));
      }
      if offer.textBytes > CALLER_DETECTION_TEXT_MAX_BYTES {
        FirstAt(complaints, 1);
        return Err(LimitExceeded(SingleText, offer.textBytes));
      }
      if |inputs| + 1 > SESSION_CALLER_MAX_INPUTS {
        FirstAt(complaints, 2);
        return Err(LimitExceeded(InputCount, |inputs| + 1));
      }
      if offer.canonicalJson.Err? {
        FirstAt(complaints, 3);
        return Err(Invalid(offer.canonicalJson.error));
      }
      var encoded := encodedJsonBytes + (if inputs != [] then 1 else 0) + |offer.canonicalJson.value|;
      if encoded > SESSION_CALLER_INPUTS_JSON_MAX_BYTES {
        FirstAt(complaints, 4);
        return Err(LimitExceeded(InputsJson, encoded));
      }
      if offer.decoded.Err? {
        FirstAt(complaints, 5);
        return Err(Invalid(offer.decoded.error));
      }
      var count := detectionCount + offer.decoded.value;
      if count > CALLER_DETECTION_MAX_COUNT {
        FirstAt(complaints, 6);
        return Err(LimitExceeded(DetectionCount, count));
      }
      var total := textBytes + offer.textBytes;
      if total > CALLER_DETECTION_TEXT_MAX_BYTES {
        FirstAt(complaints, 7);
        return Err(LimitExceeded(TextTotal, total));
      }
      if offer.validated.Err? {
        FirstAt(complaints, 8);
        return Err(Invalid(offer.validated.error));
      }
      inputs := inputs + [Input(offer.canonicalJson.value, offer.textBytes, offer.decoded.value)];
      detectionCount, textBytes, encodedJsonBytes := count, total, encoded;
      r := Ok(());
    }
  }

  /** What one more input adds to the totals, and when they stay in bounds. */
  lemma InputsGrow<E>(inputs: seq<Input>, offer: Offer<E>)
    ensures offer.canonicalJson.Ok? ==>
      |JsonArray(inputs + [Input(offer.canonicalJson.value, 0, 0)])|
      == |JsonArray(inputs)| + (if inputs != [] then 1 else 0) + |offer.canonicalJson.value|
    ensures offer.canonicalJson.Ok? && offer.decoded.Ok? ==>
      var longer := inputs + [Input(offer.canonicalJson.value, offer.textBytes, offer.decoded.value)];
      && |JsonArray(longer)| == |JsonArray(inputs)| + (if inputs != [] then 1 else 0) + |offer.canonicalJson.value|
      && TextBytes(longer) == TextBytes(inputs) + offer.textBytes
      && Detections(longer) == Detections(inputs) + offer.decoded.value
      && (Bounded(longer) <==>
            |longer| <= SESSION_CALLER_MAX_INPUTS && |JsonArray(longer)| <= SESSION_CALLER_INPUTS_JSON_MAX_BYTES
            && TextBytes(longer) <= CALLER_DETECTION_TEXT_MAX_BYTES && Detections(longer) <= CALLER_DETECTION_MAX_COUNT)
  {
    if offer.canonicalJson.Ok? {
      var longer := inputs + [Input(offer.canonicalJson.value, 0, 0)];
      assert longer[..|longer| - 1] == inputs;
    }
    if offer.canonicalJson.Ok? && offer.decoded.Ok? {
      var longer := inputs + [Input(offer.canonicalJson.value, offer.textBytes, offer.decoded.value)];
      assert longer[..|longer| - 1] == inputs;
    }
  }
}

/** How long to wait for the market to open (`should_sleep`, src/lib.rs:53-86), above the
    JSON layer: the response is an abstract array of market-state records. */
module MarketClock {
  import opened Wrappers
  import opened TimeToOpen

  /** One element of the market-state array, as the source views it: `is_market_open`
      through `as_bool()` and `time_to_open` through `as_str()`. A field that is missing or
      of another JSON type (and every field of an element that is not an object) is `None`. */
  datatype MarketRecord = MarketRecord(isOpen: Option<bool>, timeToOpen: Option<string>)

  /** What `serde_json::from_str(..).unwrap_or_default()` made of the response body. */
  datatype Json = Malformed | NotAnArray | Array(records: seq<MarketRecord>)

  /** The HTTP exchange: `reqwest` failed (the `?` at lines 59-60), or a body arrived. */
  datatype Reply = TransportError | Body(json: Json)

  /** The records `as_array()` yields: none unless the body is a JSON array. */
  function Records(json: Json): (rs: seq<MarketRecord>)
    ensures json.Array? ==> rs == json.records
    ensures !json.Array? ==> rs == []
  {
    if json.Array? then json.records else []
  }

  /** A record decides the answer when it carries a boolean `is_market_open`. */
  predicate Decides(r: MarketRecord) {
    r.isOpen.Some?
  }

  /** The countdown text of a closed record; a missing or non-string `time_to_open`
      defaults to "0:0:0". */
  function CountdownText(r: MarketRecord): (text: string)
    ensures r.timeToOpen.Some? ==> text == r.timeToOpen.value
    ensures r.timeToOpen.None? ==> text == "0:0:0"
  {
    r.timeToOpen.GetOr("0:0:0")
  }

  /** The scan does not panic: the first deciding record, if it says closed, has a countdown
      with at least three pieces (the source indexes pieces 0, 1 and 2). */
  predicate WaitDefined(records: seq<MarketRecord>)
    decreases |records|
  {
    if records == [] then true
    else match records[0].isOpen
      case None => WaitDefined(records[1..])
      case Some(open) => open || HasThreeFields(CountdownText(records[0]))
  }

  /** The seconds to wait: records without a boolean `is_market_open` are skipped; the
      first one with it gives 0 when open and its countdown when closed; no such record
      gives 0. */
  function MarketWait(records: seq<MarketRecord>): (wait: nat)
    requires WaitDefined(records)
    ensures wait > 0 ==> exists k :: 0 <= k < |records| && records[k].isOpen == Some(false)
    decreases |records|
  {
    if records == [] then 0
    else match records[0].isOpen
      case None => MarketWait(records[1..])
      case Some(open) => if open then 0 else Countdown(CountdownText(records[0]))
  }

  predicate ReplyDefined(reply: Reply) {
    reply.Body? ==> WaitDefined(Records(reply.json))
  }

  /** The outcome of `should_sleep`: `None` for the transport error it propagates, the
      market wait otherwise. */
  function SleepFor(reply: Reply): (wait: Option<nat>)
    requires ReplyDefined(reply)
    ensures wait.None? <==> reply.TransportError?
    ensures reply.Body? && !reply.json.Array? ==> wait == Some(0)
    ensures wait.Some? && wait.value > 0 ==>
              exists k :: 0 <= k < |reply.json.records| && reply.json.records[k].isOpen == Some(false)
  {
    match reply
    case TransportError => None
    case Body(json) => Some(MarketWait(Records(json)))
  }

  /** `should_sleep`: scan the records in order and return at the first deciding one. */
  method ShouldSleep(reply: Reply) returns (wait: Option<nat>)
    requires ReplyDefined(reply)
    ensures wait == SleepFor(reply)
  {
    if reply.TransportError? {
      return None;
    }
    var records := Records(reply.json);
    for i := 0 to |records|
      invariant WaitDefined(records[i..])
      invariant MarketWait(records[i..]) == MarketWait(records)
    {
      assert records[i..][1..] == records[i + 1..];
      var r := records[i];
      if r.isOpen.Some? {
        if r.isOpen.value {
          return Some(0);
        } else {
          return Some(Countdown(CountdownText(r)));
        }
      }
    }
    return Some(0);
  }

  /** The first deciding record, at index k, determines the result by itself: whether the
      scan is defined, and the wait (0 when open, its countdown when closed). */
  lemma {:induction false} DecidedAt(records: seq<MarketRecord>, k: nat)
    requires k < |records| && Decides(records[k])
    requires forall j :: 0 <= j < k ==> !Decides(records[j])
    ensures WaitDefined(records) <==>
              (records[k].isOpen == Some(true) || HasThreeFields(CountdownText(records[k])))
    ensures WaitDefined(records) ==>
              MarketWait(records) ==
                (if records[k].isOpen == Some(true) then 0 else Countdown(CountdownText(records[k])))
  {
    if k > 0 {
      assert !Decides(records[0]);
      var rest := records[1..];
      forall j | 0 <= j < k - 1 ensures !Decides(rest[j]) {
        assert rest[j] == records[j + 1];
      }
      DecidedAt(rest, k - 1);
    }
  }

  /** Without a deciding record the scan is always defined and waits 0. */
  lemma {:induction false} NoDecider(records: seq<MarketRecord>)
    requires forall j :: 0 <= j < |records| ==> !Decides(records[j])
    ensures WaitDefined(records) && MarketWait(records) == 0
    decreases |records|
  {
    if records != [] {
      assert !Decides(records[0]);
      var rest := records[1..];
      forall j | 0 <= j < |rest| ensures !Decides(rest[j]) {
        assert rest[j] == records[j + 1];
      }
      NoDecider(rest);
    }
  }

  /** Failing open: a body that is not valid JSON, or not an array, means no wait; a
      transport error is reported as `None`. */
  lemma FailOpen()
    ensures SleepFor(Body(Malformed)) == Some(0)
    ensures SleepFor(Body(NotAnArray)) == Some(0)
    ensures SleepFor(Body(Array([]))) == Some(0)
    ensures SleepFor(TransportError) == None
  {
  }

  /** The worked examples: `[{"is_market_open": true}]` waits 0 and
      `[{"is_market_open": false, "time_to_open": "1:30:15"}]` waits 5415 seconds; a closed
      record without `time_to_open` waits 0. */
  lemma Examples()
    ensures SleepFor(Body(Array([MarketRecord(Some(true), None)]))) == Some(0)
    ensures ReplyDefined(Body(Array([MarketRecord(Some(false), Some("1:30:15"))])))
    ensures SleepFor(Body(Array([MarketRecord(Some(false), Some("1:30:15"))]))) == Some(5415)
    ensures ReplyDefined(Body(Array([MarketRecord(Some(false), None)])))
    ensures SleepFor(Body(Array([MarketRecord(Some(false), None)]))) == Some(0)
  {
    CountdownExample();
    DefaultCountdownIsZero();
    var closed := [MarketRecord(Some(false), Some("1:30:15"))];
    assert closed[1..] == [];
    var silent := [MarketRecord(Some(false), None)];
    assert CountdownText(silent[0]) == "0:0:0";
  }
}

/** The guest-side batching client (rust/src/client.rs): a configuration, a
    buffer of events that `capture` appends to, and `flush`, which drains the
    buffer into one `POST {host}/batch` request.

    The JSON text of the batch is opaque, as everywhere in the model: the body
    is `codec.serialize` of the JSON value serde derives for `BatchBody`, and
    the contracts say what a lawful parser reads back from it. The response
    body is only printed, so the reply matters only through whether the
    transport answered at all.
 */
module PosthogClient {
  import opened Outcomes
  import opened Utf8
  import opened Json
  import opened Http

  /** `PosthogClientConfig`. */
  datatype Config = Config(apiKey: string, host: string)

  /** `PosthogEvent`. */
  datatype Event = Event(event: string, properties: map<string, JVal>)

  /** `PosthogClient`: the configuration and the buffered events, oldest first. */
  datatype Client = Client(config: Config, buffer: seq<Event>)

  /** `BatchBody`. */
  datatype BatchBody = BatchBody(apiKey: string, historicalMigration: bool, batch: seq<Event>)

  // ---------------------------------------------------------------------------
  // The JSON value serde derives, and reading it back

  /** A struct serialises as an object keyed by its field names; a `HashMap`
      with string keys as an object with the same entries. */
  function EventJson(e: Event): JVal
  {
    JObj(map["event" := JStr(e.event), "properties" := JObj(e.properties)])
  }

  function EventsJson(es: seq<Event>): (r: seq<JVal>)
    ensures |r| == |es|
    ensures forall i :: 0 <= i < |es| ==> r[i] == EventJson(es[i])
  {
    seq(|es|, i requires 0 <= i < |es| => EventJson(es[i]))
  }

  function BatchJson(b: BatchBody): JVal
  {
    JObj(map["api_key" := JStr(b.apiKey),
             "historical_migration" := JBool(b.historicalMigration),
             "batch" := JArr(EventsJson(b.batch))])
  }

  /** Reading an event back: an object with a string `event` and an object
      `properties`; anything else is not an event. */
  function EventFromJson(v: JVal): (r: Option<Event>)
    ensures r.Some? ==> v.JObj? && "event" in v.fields && "properties" in v.fields
    ensures r.Some? ==> v.fields["event"] == JStr(r.value.event) && v.fields["properties"] == JObj(r.value.properties)
  {
    if v.JObj? && "event" in v.fields && "properties" in v.fields
       && v.fields["event"].JStr? && v.fields["properties"].JObj?
    then Some(Event(v.fields["event"].s, v.fields["properties"].fields))
    else None
  }

  function EventsFromJson(vs: seq<JVal>): (r: Option<seq<Event>>)
    ensures r.Some? ==> |r.value| == |vs|
    decreases |vs|
  {
    if |vs| == 0 then Some([])
    else match EventFromJson(vs[0])
      case None => None
      case Some(e) =>
        match EventsFromJson(vs[1..])
        case None => None
        case Some(rest) => Some([e] + rest)
  }

  function BatchFromJson(v: JVal): (r: Option<BatchBody>)
  {
    if v.JObj? && "api_key" in v.fields && "historical_migration" in v.fields && "batch" in v.fields
       && v.fields["api_key"].JStr? && v.fields["historical_migration"].JBool? && v.fields["batch"].JArr?
    then
      match EventsFromJson(v.fields["batch"].items)
      case None => None
      case Some(events) => Some(BatchBody(v.fields["api_key"].s, v.fields["historical_migration"].b, events))
    else None
  }

  /** What a lawful JSON parser reads from a request body. */
  function ReadBatch(codec: Codec, body: seq<uint8>): Option<BatchBody>
  {
    match codec.parse(DecodeLossy(body))
    case None => None
    case Some(v) => BatchFromJson(v)
  }

  lemma EventRoundTrip(e: Event)
    ensures EventFromJson(EventJson(e)) == Some(e)
  {
  }

  /** The serialised events read back as the same events, in the same order. */
  lemma {:induction false} EventsRoundTrip(es: seq<Event>)
    ensures EventsFromJson(EventsJson(es)) == Some(es)
  {
    if |es| > 0 {
      assert EventsJson(es)[1..] == EventsJson(es[1..]);
      EventRoundTrip(es[0]);
      EventsRoundTrip(es[1..]);
      assert [es[0]] + es[1..] == es;
    }
  }

  /** The batch body serde produces carries the API key, the migration flag
      and every event, in order. */
  lemma BatchRoundTrip(b: BatchBody)
    ensures BatchFromJson(BatchJson(b)) == Some(b)
  {
    EventsRoundTrip(b.batch);
  }

  /** The body text `flush` sends, parsed back by a lawful parser, is the
      batch it was made from. */
  lemma BodyReadsBack(codec: Codec, b: BatchBody)
    requires Lawful(codec)
    ensures ReadBatch(codec, Encode(codec.serialize(BatchJson(b)))) == Some(b)
  {
    DecodeEncode(codec.serialize(BatchJson(b)));
    BatchRoundTrip(b);
  }

  // ---------------------------------------------------------------------------
  // The client

  /** `PosthogClient::new` (lines 34-39). */
  function New(config: Config): (c: Client)
    ensures c.config == config && |c.buffer| == 0
  {
    Client(config, [])
  }

  /** `capture` (lines 41-44): append the event after every earlier one. */
  function Capture(c: Client, e: Event): (r: Client)
    ensures r.config == c.config
    ensures |r.buffer| == |c.buffer| + 1
    ensures r.buffer[..|c.buffer|] == c.buffer && r.buffer[|c.buffer|] == e
  {
    c.(buffer := c.buffer + [e])
  }

  /** `capture` called once per event, in order. */
  function CaptureAll(c: Client, es: seq<Event>): Client
    decreases |es|
  {
    if |es| == 0 then c else CaptureAll(Capture(c, es[0]), es[1..])
  }

  /** Capturing a sequence of events appends exactly those events, in order,
      and touches nothing else. */
  lemma {:induction false} CaptureAllAppends(c: Client, es: seq<Event>)
    ensures CaptureAll(c, es) == c.(buffer := c.buffer + es)
    decreases |es|
  {
    if |es| > 0 {
      var c1 := Capture(c, es[0]);
      assert c1.buffer == c.buffer + [es[0]];
      CaptureAllAppends(c1, es[1..]);
      assert c1.buffer + es[1..] == c.buffer + es;
    }
  }

  const BatchPath: string := "/batch"

  /** `flush` (lines 46-63). The events are drained into the batch before the
      request is made, so the client comes back with an empty buffer whether
      or not the request went through. `http::request` fails only when the
      transport does; the status is not checked. */
  method Flush(c: Client, codec: Codec, reply: Reply) returns (r: Client, req: Request, outcome: Result<()>)
    ensures r.config == c.config && |r.buffer| == 0
    ensures req.verb == "POST" && req.target == Absolute(c.config.host + BatchPath)
    ensures req.headers == [Header("Content-Type", "application/json")]
    ensures req.body.Some?
    ensures Lawful(codec) ==>
      ReadBatch(codec, req.body.value) == Some(BatchBody(c.config.apiKey, false, c.buffer))
    ensures outcome.Ok? <==> reply.Answered?
    ensures outcome.Err? ==> outcome.error == TransportFailed
  {
    var events: seq<Event> := [];
    var drained := 0;
    while drained < |c.buffer|
      invariant 0 <= drained <= |c.buffer|
      invariant events == c.buffer[..drained]
    {
      events := events + [c.buffer[drained]];
      drained := drained + 1;
    }
    assert events == c.buffer;
    r := c.(buffer := []);
    var body := BatchBody(c.config.apiKey, false, events);
    var text := codec.serialize(BatchJson(body));
    req := Request("POST", Absolute(c.config.host + BatchPath),
                   [Header("Content-Type", "application/json")], Some(Encode(text)));
    if Lawful(codec) {
      BodyReadsBack(codec, body);
    }
    outcome := if reply.Answered? then Ok(()) else Err(TransportFailed);
  }
}

/** The guest module (rust/src/lib.rs) as its hosts see it: the `capture` and
    `request` exports, their decode fallbacks, the event payload `send_event`
    builds, and the copy of the host's response into a buffer of the guest's
    own.

    The guest calls `http_request` synchronously; which host answers is a
    parameter. A host callback that throws, and a guest access out of memory,
    both end the export (a trap): the failure carries the state reached.
 */
module GuestExports {
  import opened Outcomes
  import opened Utf8
  import opened Json
  import opened LinearMemory
  import opened GuestHeap
  import opened Http
  import opened Bridge
  import DotnetHost
  import NodeHost

  /** Which embedding supplies the guest's imports. The .NET host's
      `HttpClient` may carry a base address for relative URLs; the one
      dotnet/WasmClient.cs line 32 creates has none. */
  datatype HostKind = Dotnet(baseAddress: Option<string>) | Node

  /** The `http_request` import of the given host. */
  function CallHttpRequest(host: HostKind, s: State, a: HttpArgs, codec: Codec, reply: Reply): (r: Step<int>)
    ensures host.Dotnet? ==> r == DotnetHost.HttpRequest(s, a, host.baseAddress, codec, reply)
    ensures host == Node ==> r == NodeHost.HttpRequest(s, a, codec, reply)
  {
    match host
    case Dotnet(baseAddress) => DotnetHost.HttpRequest(s, a, baseAddress, codec, reply)
    case Node => NodeHost.HttpRequest(s, a, codec, reply)
  }

  /** The bytes a host writes into the guest for a successful reply's body, or
      None when it rejects the body (the Node host parses it as JSON). */
  function HostResponse(host: HostKind, codec: Codec, body: seq<uint8>): Option<seq<uint8>>
  {
    match host
    case Dotnet(_) => Some(DotnetHost.ResponseBytes(body))
    case Node =>
      match codec.parse(DecodeLossyBom(body))
      case None => None
      case Some(v) => Some(Encode(codec.serialize(v)))
  }

  /** What every `http_request`, of either host, guarantees the guest. */
  lemma HttpRequestContract(host: HostKind, s: State, a: HttpArgs, codec: Codec, reply: Reply)
    ensures var r := CallHttpRequest(host, s, a, codec, reply);
      && Grows(s.guest, r.state.guest) && r.state.hostData == s.hostData
    ensures var r := CallHttpRequest(host, s, a, codec, reply);
      Wf(s.guest) ==> Wf(r.state.guest) && Keeps(s.guest, r.state.guest)
    ensures var r := CallHttpRequest(host, s, a, codec, reply);
      Wf(s.guest) && r.Fail? ==> r.state.guest == s.guest && r.state.latestLen == s.latestLen
    ensures var r := CallHttpRequest(host, s, a, codec, reply);
      Wf(s.guest) && r.Done? ==>
        && reply.Answered? && IsSuccess(reply.status)
        && HostResponse(host, codec, reply.body).Some?
        && var bytes := HostResponse(host, codec, reply.body).value;
        && r.state.latestLen == |bytes|
        && Load(r.state.guest.mem, r.value, |bytes|) == Ok(bytes)
        && r.state.guest.live == (if |bytes| == 0 then s.guest.live else s.guest.live[r.value := |bytes|])
        && (|bytes| == 0 ==> r.value == Dangling)
  {
  }

  // ---------------------------------------------------------------------------
  // Static data

  /** Where the guest's static strings `"POST"`, `"/capture"` and the
      properties fallback `"{}"` lie, below the heap. */
  const PostAddr: int := 2
  const CaptureAddr: int := 6
  const FallbackAddr: int := 14

  const Post: string := "POST"
  const CapturePath: string := "/capture"
  const PropertiesFallback: string := "{}"

  /** The data segment is as the module was linked. */
  predicate DataIntact(mem: Memory)
  {
    && HeapBase <= |mem|
    && mem[PostAddr..PostAddr + 4] == Encode(Post)
    && mem[CaptureAddr..CaptureAddr + 8] == Encode(CapturePath)
    && mem[FallbackAddr..FallbackAddr + 2] == Encode(PropertiesFallback)
  }

  lemma StaticStringsFit()
    ensures |Encode(Post)| == 4 && |Encode(CapturePath)| == 8
    ensures |Encode(PropertiesFallback)| == 2
    ensures PostAddr + 4 <= CaptureAddr && CaptureAddr + 8 <= FallbackAddr && FallbackAddr + 2 <= HeapBase
  {
    EncodeAscii(Post);
    EncodeAscii(CapturePath);
    EncodeAscii(PropertiesFallback);
  }

  /** Nothing the heap does touches the data segment. */
  lemma DataStaysIntact(g: Guest, g': Guest)
    requires Wf(g) && DataIntact(g.mem) && Grows(g, g')
    ensures DataIntact(g'.mem)
  {
    StaticStringsFit();
    assert g'.mem[PostAddr..PostAddr + 4] == g.mem[PostAddr..PostAddr + 4];
    assert g'.mem[CaptureAddr..CaptureAddr + 8] == g.mem[CaptureAddr..CaptureAddr + 8];
    assert g'.mem[FallbackAddr..FallbackAddr + 2] == g.mem[FallbackAddr..FallbackAddr + 2];
  }

  /** `"POST"` is a token that neither host's normalisation changes and that
      `fetch` accepts with a body. */
  lemma PostIsNormal()
    ensures IsToken(Post) && DotnetMethod(Post) == Post && NodeMethod(Post) == Post
    ensures !IsForbiddenMethod(Post) && Post != "GET" && Post != "HEAD"
  {
    PostIsUpperToken();
    UpperTokenIsNormal(Post);
    PostIsAllowed();
  }

  lemma PostIsUpperToken()
    ensures IsToken(Post) && forall i :: 0 <= i < |Post| ==> !('a' <= Post[i] <= 'z')
  {
    assert Post == ['P', 'O', 'S', 'T'];
  }

  lemma PostIsAllowed()
    ensures !IsForbiddenMethod(Post) && Post != "GET" && Post != "HEAD"
  {
    assert |ToUpperAscii(Post)| == 4;
  }

  /** `"/capture"` is a path, not an absolute HTTP URI. */
  lemma CaptureIsRelative()
    ensures !DotnetHost.IsHttpUrl(CapturePath)
  {
    assert CapturePath[..7][0] == '/' != "http://"[0];
    assert CapturePath[..8][0] == '/' != "https://"[0];
  }

  /** With the data segment intact, both hosts read the two static arguments back as written. */
  lemma StaticArgsRead(mem: Memory)
    requires DataIntact(mem)
    ensures DotnetHost.ReadArg(mem, Buf(CaptureAddr, 8)) == Ok(CapturePath)
    ensures DotnetHost.ReadArg(mem, Buf(PostAddr, 4)) == Ok(Post)
    ensures NodeHost.WasmToString(mem, CaptureAddr, 8) == CapturePath
    ensures NodeHost.WasmToString(mem, PostAddr, 4) == Post
  {
    StaticStringsFit();
    DecodeEncode(Post);
    DecodeEncode(CapturePath);
  }

  // ---------------------------------------------------------------------------
  // Arguments and payload

  /** `str::from_utf8(bytes).unwrap_or(fallback)`. */
  function DecodeOr(bytes: seq<uint8>, fallback: string): (r: string)
    ensures Decode(bytes).Some? ==> Encode(r) == bytes
    ensures Decode(bytes).None? ==> r == fallback
  {
    match Decode(bytes)
    case Some(text) => (EncodeDecode(bytes); text)
    case None => fallback
  }

  /** The text a host encodes arrives as it was sent, whatever the fallback. */
  lemma DecodeOrOfEncoding(s: string, fallback: string)
    ensures DecodeOr(Encode(s), fallback) == s
  {
    DecodeEncode(s);
  }

  /** The four strings `capture` works with. */
  datatype EventArgs = EventArgs(event: string, distinctId: string, apiKey: string, properties: string)

  /** The four pointer/length pairs of `capture`. */
  datatype CaptureArgs = CaptureArgs(event: Buf, distinctId: Buf, apiKey: Buf, properties: Buf)

  /** The four buffers, in argument order. */
  function ArgumentBuffers(c: CaptureArgs): seq<Buf>
  {
    [c.event, c.distinctId, c.apiKey, c.properties]
  }

  const UnknownEvent: string := "unknown_event"
  const UnknownDistinctId: string := "unknown_distinct_id"

  /** An argument `slice::from_raw_parts` can hand to the guest without a
      trap: an empty slice touches no memory wherever it points, any other
      slice must lie in memory. */
  predicate Viewable(mem: Memory, b: Buf)
  {
    b.len == 0 || InBounds(mem, b.ptr, b.len)
  }

  /** The bytes of a viewable argument. */
  function View(mem: Memory, b: Buf): seq<uint8>
    requires Viewable(mem, b)
  {
    if b.len == 0 then [] else mem[b.ptr..b.ptr + b.len]
  }

  /** The start of `capture` (rust/src/lib.rs lines 84-94): view each argument
      as a slice of memory (a trap when a non-empty one does not lie in memory)
      and decode it, with a fallback for bytes that are not UTF-8. */
  function ReadArgs(mem: Memory, c: CaptureArgs): (r: Result<EventArgs>)
    ensures r.Ok? <==>
      && Viewable(mem, c.event) && Viewable(mem, c.distinctId)
      && Viewable(mem, c.apiKey) && Viewable(mem, c.properties)
    ensures r.Err? ==> r.error.OutOfBounds?
    ensures r.Ok? ==>
      && r.value.event == DecodeOr(View(mem, c.event), UnknownEvent)
      && r.value.distinctId == DecodeOr(View(mem, c.distinctId), UnknownDistinctId)
      && r.value.apiKey == DecodeOr(View(mem, c.apiKey), "")
      && r.value.properties == DecodeOr(View(mem, c.properties), PropertiesFallback)
  {
    if !Viewable(mem, c.event) then Err(OutOfBounds(c.event.ptr, c.event.len, |mem|))
    else if !Viewable(mem, c.distinctId) then Err(OutOfBounds(c.distinctId.ptr, c.distinctId.len, |mem|))
    else if !Viewable(mem, c.apiKey) then Err(OutOfBounds(c.apiKey.ptr, c.apiKey.len, |mem|))
    else if !Viewable(mem, c.properties) then Err(OutOfBounds(c.properties.ptr, c.properties.len, |mem|))
    else
      Ok(EventArgs(DecodeOr(View(mem, c.event), UnknownEvent), DecodeOr(View(mem, c.distinctId), UnknownDistinctId),
                   DecodeOr(View(mem, c.apiKey), ""), DecodeOr(View(mem, c.properties), PropertiesFallback)))
  }

  /** Empty arguments decode to empty strings wherever they point, even past
      the end of memory: `from_utf8` accepts the empty slice, so no fallback
      is taken and nothing traps. */
  lemma EmptyArgsRead(mem: Memory, c: CaptureArgs)
    requires c.event.len == 0 && c.distinctId.len == 0 && c.apiKey.len == 0 && c.properties.len == 0
    ensures ReadArgs(mem, c) == Ok(EventArgs("", "", "", ""))
  {
  }

  /** Arguments a host wrote as the encodings of four strings decode to those strings. */
  lemma ReadsBack(mem: Memory, c: CaptureArgs, a: EventArgs)
    requires Load(mem, c.event.ptr, c.event.len) == Ok(Encode(a.event))
    requires Load(mem, c.distinctId.ptr, c.distinctId.len) == Ok(Encode(a.distinctId))
    requires Load(mem, c.apiKey.ptr, c.apiKey.len) == Ok(Encode(a.apiKey))
    requires Load(mem, c.properties.ptr, c.properties.len) == Ok(Encode(a.properties))
    ensures ReadArgs(mem, c) == Ok(a)
  {
    ArgReadsBack(mem, c.event, a.event, UnknownEvent);
    ArgReadsBack(mem, c.distinctId, a.distinctId, UnknownDistinctId);
    ArgReadsBack(mem, c.apiKey, a.apiKey, "");
    ArgReadsBack(mem, c.properties, a.properties, PropertiesFallback);
  }

  /** One argument holding the encoding of a text is viewable and decodes to
      that text. */
  lemma ArgReadsBack(mem: Memory, b: Buf, text: string, fallback: string)
    requires Load(mem, b.ptr, b.len) == Ok(Encode(text))
    ensures Viewable(mem, b) && DecodeOr(View(mem, b), fallback) == text
  {
    assert View(mem, b) == Encode(text);
    DecodeOrOfEncoding(text, fallback);
  }

  /** `serde_json::from_str(text).unwrap_or_else(|_| Value::Object(Map::new()))`. */
  function UserProperties(codec: Codec, text: string): (r: JVal)
    ensures codec.parse(text).None? ==> r == JObj(map[])
    ensures codec.parse(text).Some? ==> r == codec.parse(text).value
  {
    match codec.parse(text)
    case Some(v) => v
    case None => JObj(map[])
  }

  /** Properties that were serialised by a lawful codec come back unchanged. */
  lemma UserPropertiesOfSerialized(codec: Codec, v: JVal)
    requires Lawful(codec)
    ensures UserProperties(codec, codec.serialize(v)) == v
  {
  }

  /** The properties every event carries unless the caller overrides them. */
  const DefaultProperties: JVal :=
    JObj(map["$lib" := JStr("posthog-wasm"), "$lib_version" := JStr("0.1.0"), "$geoip_disabled" := JBool(true)])

  /** The event `send_event` posts (rust/src/lib.rs lines 118-133). */
  function EventPayload(event: string, distinctId: string, apiKey: string, user: JVal): (r: JVal)
    ensures r.JObj? && r.fields.Keys == {"api_key", "event", "distinct_id", "properties"}
    ensures r.fields["api_key"] == JStr(apiKey)
    ensures r.fields["event"] == JStr(event)
    ensures r.fields["distinct_id"] == JStr(distinctId)
    ensures var p := r.fields["properties"];
      && p.JObj?
      && p.fields.Keys == {"$lib", "$lib_version", "$geoip_disabled"} + Fields(user).Keys
      && (forall k :: k in Fields(user) ==> p.fields[k] == Fields(user)[k])
      && (forall k :: k in DefaultProperties.fields && k !in Fields(user) ==> p.fields[k] == DefaultProperties.fields[k])
  {
    JObj(map["api_key" := JStr(apiKey), "event" := JStr(event), "distinct_id" := JStr(distinctId),
             "properties" := Overlay(DefaultProperties, user)])
  }

  /** The body text `send_event` sends. */
  function EventBody(codec: Codec, args: EventArgs): seq<uint8>
  {
    Encode(codec.serialize(EventPayload(args.event, args.distinctId, args.apiKey, UserProperties(codec, args.properties))))
  }

  /** Under a lawful codec the body is never empty and both hosts' JSON check
      accepts it: it does not begin with a byte-order mark, so the Node host's
      decoder reads the same text as the .NET host's. */
  lemma EventBodyIsJson(codec: Codec, args: EventArgs)
    requires Lawful(codec)
    ensures |EventBody(codec, args)| > 0
    ensures codec.parse(DecodeLossy(EventBody(codec, args))) ==
      Some(EventPayload(args.event, args.distinctId, args.apiKey, UserProperties(codec, args.properties)))
    ensures DecodeLossyBom(EventBody(codec, args)) == DecodeLossy(EventBody(codec, args))
  {
    var text := codec.serialize(EventPayload(args.event, args.distinctId, args.apiKey, UserProperties(codec, args.properties)));
    DecodeEncode(text);
    DecodeBomEncode(text);
    assert |text| > 0 && text[0] != Bom;
  }

  /** The request `send_event` hands the transport: POST to `/capture`
      resolved against `base`, carrying the serialised payload, with the
      host's headers. `base` is the .NET client's base address or the host URL
      the Node host recorded. */
  function EventRequest(host: HostKind, base: string, body: seq<uint8>): Http.Request
  {
    match host
    case Dotnet(_) => Http.Request(Post, Relative(CapturePath, base), [Header("Content-Type", "application/json")], Some(body))
    case Node => Http.Request(Post, Relative(CapturePath, base), NodeHost.JsonHeaders, Some(body))
  }

  // ---------------------------------------------------------------------------
  // The response copy

  /** The tail of `send_event` and `request` (rust/src/lib.rs lines 148-151 and
      173-178): ask for the response length, allocate that many bytes, copy the
      host's response there. The host's block is neither read past nor freed. */
  function CopyResponse(s: State, resp: int): (r: Step<int>)
    ensures r.state == s.(guest := r.state.guest)
    ensures Grows(s.guest, r.state.guest)
    ensures Wf(s.guest) ==> Wf(r.state.guest)
    ensures Wf(s.guest) && Below(s.guest, Buf(resp, s.latestLen)) ==>
      && r.Done?
      && Load(r.state.guest.mem, r.value, s.latestLen) == Load(s.guest.mem, resp, s.latestLen)
      && r.state.guest.live == (if s.latestLen == 0 then s.guest.live else s.guest.live[r.value := s.latestLen])
      && (s.latestLen > 0 ==> r.value !in s.guest.live)
    ensures r.Done? && s.latestLen == 0 ==> r.value == Dangling
    ensures r.Done? && Wf(s.guest) && s.latestLen > 0 ==> r.value !in s.guest.live
    ensures Wf(s.guest) ==> Keeps(s.guest, r.state.guest)
  {
    var n := HttpRequestLen(s);
    var (g1, out) := Alloc(s.guest, n);
    assert Wf(s.guest) ==> Keeps(s.guest, g1);
    match Load(g1.mem, resp, n)
    case Err(e) => Fail(s.(guest := g1), e)
    case Ok(bytes) =>
      match Store(g1.mem, out, bytes)
      case Err(e) => Fail(s.(guest := g1), e)
      case Ok(mem) =>
        assert Wf(s.guest) && Below(s.guest, Buf(resp, n)) ==> bytes == s.guest.mem[resp..resp + n];
        LoadAfterStore(g1.mem, out, bytes);
        Done(s.(guest := g1.(mem := mem)), out)
  }

  /** The `request` export (rust/src/lib.rs lines 162-180): forward the six
      arguments to `http_request`, then copy the response. */
  function RequestExport(host: HostKind, s: State, a: HttpArgs, codec: Codec, reply: Reply): (r: Step<int>)
    ensures Wf(s.guest) ==> Wf(r.state.guest) && Grows(s.guest, r.state.guest)
  {
    HttpRequestContract(host, s, a, codec, reply);
    match CallHttpRequest(host, s, a, codec, reply)
    case Fail(s1, e) => Fail(s1, e)
    case Done(s1, resp) => CopyResponse(s1, resp)
  }

  /** What `request` hands back is a fresh block holding exactly the bytes the
      host wrote; the host's own block stays allocated. */
  lemma RequestExportReturnsResponse(host: HostKind, s: State, a: HttpArgs, codec: Codec, reply: Reply)
    requires Wf(s.guest)
    requires RequestExport(host, s, a, codec, reply).Done?
    ensures var r := RequestExport(host, s, a, codec, reply);
      && reply.Answered? && IsSuccess(reply.status)
      && HostResponse(host, codec, reply.body).Some?
      && var bytes := HostResponse(host, codec, reply.body).value;
      && r.state.latestLen == |bytes|
      && Load(r.state.guest.mem, r.value, |bytes|) == Ok(bytes)
      && Keeps(s.guest, r.state.guest)
      && (|bytes| > 0 ==>
            exists resp :: (resp != r.value && resp !in s.guest.live &&
                            r.state.guest.live == s.guest.live[resp := |bytes|][r.value := |bytes|]))
  {
    HttpRequestContract(host, s, a, codec, reply);
    var r1 := CallHttpRequest(host, s, a, codec, reply);
    HeldIsBelow(r1.state.guest, Buf(r1.value, r1.state.latestLen));
    var r := CopyResponse(r1.state, r1.value);
    assert RequestExport(host, s, a, codec, reply) == r;
  }

  // ---------------------------------------------------------------------------
  // capture

  /** The arguments `send_event` passes to `http_request`: the two static
      strings and the body string. */
  function EventArgsFor(body: Buf): HttpArgs
  {
    HttpArgs(Buf(CaptureAddr, 8), Buf(PostAddr, 4), body)
  }

  /** `send_event` (rust/src/lib.rs lines 105-153): serialise the payload into a
      heap string, post it to `/capture` through `http_request`, copy the
      response, drop the string. */
  function SendEvent(host: HostKind, s: State, args: EventArgs, codec: Codec, reply: Reply): (r: Step<int>)
    ensures Wf(s.guest) ==> Wf(r.state.guest) && Keeps(s.guest, r.state.guest)
    ensures r.Done? && Wf(s.guest) && r.state.latestLen > 0 ==> r.value !in s.guest.live
    ensures r.state.hostData == s.hostData
    ensures Grows(s.guest, r.state.guest)
  {
    var body := EventBody(codec, args);
    match AllocCopy(s.guest, body)
    case Err(e) => Fail(s, e)
    case Ok((g1, bodyPtr)) =>
      var r := PostEvent(host, s.(guest := g1), Buf(bodyPtr, |body|), codec, reply);
      GrowsTransitive(s.guest, g1, r.state.guest);
      assert Wf(s.guest) ==> bodyPtr !in s.guest.live;
      r
  }

  /** The part of `send_event` after the body string exists: the host call, the
      copy of its response, and the drop of the body. */
  function PostEvent(host: HostKind, s: State, body: Buf, codec: Codec, reply: Reply): (r: Step<int>)
    ensures Wf(s.guest) ==> Wf(r.state.guest)
    ensures Wf(s.guest) ==> forall p :: p in s.guest.live && p != body.ptr ==>
      p in r.state.guest.live && r.state.guest.live[p] == s.guest.live[p]
    ensures r.Done? && Wf(s.guest) && r.state.latestLen > 0 ==> r.value !in s.guest.live
    ensures r.state.hostData == s.hostData
    ensures Grows(s.guest, r.state.guest)
  {
    HttpRequestContract(host, s, EventArgsFor(body), codec, reply);
    match CallHttpRequest(host, s, EventArgsFor(body), codec, reply)
    case Fail(s1, e) => Fail(s1, e)
    case Done(s1, resp) =>
      GrowsTransitive(s.guest, s1.guest, FinishEvent(s1, resp, body).state.guest);
      FinishEvent(s1, resp, body)
  }

  /** The last part of `send_event`: copy the response, then drop the body string. */
  function FinishEvent(s: State, resp: int, body: Buf): (r: Step<int>)
    ensures Wf(s.guest) ==> Wf(r.state.guest)
    ensures Wf(s.guest) ==> forall p :: p in s.guest.live && p != body.ptr ==>
      p in r.state.guest.live && r.state.guest.live[p] == s.guest.live[p]
    ensures r.Done? && Wf(s.guest) && s.latestLen > 0 ==> r.value !in s.guest.live
    ensures r.state == s.(guest := r.state.guest)
    ensures Grows(s.guest, r.state.guest)
  {
    match CopyResponse(s, resp)
    case Fail(s1, e) => Fail(s1, e)
    case Done(s1, out) =>
      match Release(s1.guest, body.ptr, body.len)
      case Err(e) => Fail(s1, e)
      case Ok(g) =>
        GrowsTransitive(s.guest, s1.guest, g);
        Done(s1.(guest := g), out)
  }

  /** With the response below the break and the body string still allocated,
      the copy succeeds and the body is freed. */
  lemma FinishEventFrees(s: State, resp: int, body: Buf)
    requires Wf(s.guest) && Below(s.guest, Buf(resp, s.latestLen))
    requires body.len > 0 && body.ptr in s.guest.live && s.guest.live[body.ptr] == body.len
    ensures var r := FinishEvent(s, resp, body);
      && r.Done?
      && Load(r.state.guest.mem, r.value, s.latestLen) == Load(s.guest.mem, resp, s.latestLen)
      && r.state.guest.live == (if s.latestLen == 0 then s.guest.live else s.guest.live[r.value := s.latestLen]) - {body.ptr}
      && (s.latestLen > 0 ==> r.value !in s.guest.live)
      && (s.latestLen == 0 ==> r.value == Dangling)
  {
    var r1 := CopyResponse(s, resp);
    assert r1.Done?;
  }

  /** `send_event` is the allocation of the body string followed by `PostEvent`. */
  lemma SendEventSplits(host: HostKind, s: State, args: EventArgs, codec: Codec, reply: Reply) returns (s1: State, b: Buf)
    requires Wf(s.guest) && Lawful(codec)
    ensures SendEvent(host, s, args, codec, reply) == PostEvent(host, s1, b, codec, reply)
    ensures s1 == s.(guest := s1.guest) && Wf(s1.guest) && Grows(s.guest, s1.guest)
    ensures b.len == |EventBody(codec, args)| > 0
    ensures Load(s1.guest.mem, b.ptr, b.len) == Ok(EventBody(codec, args))
    ensures b.ptr !in s.guest.live && s1.guest.live == s.guest.live[b.ptr := b.len]
    ensures codec.parse(DecodeLossy(EventBody(codec, args))).Some?
    ensures codec.parse(DecodeLossyBom(EventBody(codec, args))).Some?
  {
    var body := EventBody(codec, args);
    EventBodyIsJson(codec, args);
    var r1 := AllocCopy(s.guest, body);
    s1 := s.(guest := r1.value.0);
    b := Buf(r1.value.1, |body|);
  }

  /** Whatever the network answers, `send_event` hands exactly one request to
      the transport, POST `/capture` with the event payload, when the host has
      a URL to resolve the path against. Without one it sends nothing: the
      Node host fails with `HostNotSet`, and the .NET host, whose `HttpClient`
      has no base address, with `NoBaseAddress` once the body is formatted. */
  lemma SendEventPostsPayload(host: HostKind, s: State, args: EventArgs, codec: Codec, reply: Reply)
    requires Wf(s.guest) && DataIntact(s.guest.mem) && Lawful(codec)
    requires host == Node && s.hostData.Some? ==> Below(s.guest, s.hostData.value)
    ensures host.Dotnet? && host.baseAddress.Some? ==>
      SendEvent(host, s, args, codec, reply).state.sent ==
        s.sent + [EventRequest(host, host.baseAddress.value, EventBody(codec, args))]
    ensures host.Dotnet? && host.baseAddress.None? ==>
      SendEvent(host, s, args, codec, reply) == Fail(SendEvent(host, s, args, codec, reply).state, NoBaseAddress(CapturePath))
      && SendEvent(host, s, args, codec, reply).state.sent == s.sent
    ensures host == Node && s.hostData.Some? ==>
      var h := s.hostData.value;
      SendEvent(host, s, args, codec, reply).state.sent ==
        s.sent + [EventRequest(host, NodeHost.WasmToString(s.guest.mem, h.ptr, h.len), EventBody(codec, args))]
    ensures host == Node && s.hostData.None? ==>
      SendEvent(host, s, args, codec, reply) == Fail(SendEvent(host, s, args, codec, reply).state, HostNotSet)
      && SendEvent(host, s, args, codec, reply).state.sent == s.sent
  {
    if host.Dotnet? {
      DotnetSendsPayload(host, s, args, codec, reply);
    } else {
      NodeSendsPayload(s, args, codec, reply);
    }
  }

  /** The .NET half of `SendEventPostsPayload`. */
  lemma DotnetSendsPayload(host: HostKind, s: State, args: EventArgs, codec: Codec, reply: Reply)
    requires host.Dotnet? && Wf(s.guest) && DataIntact(s.guest.mem) && Lawful(codec)
    ensures host.baseAddress.Some? ==>
      SendEvent(host, s, args, codec, reply).state.sent ==
        s.sent + [EventRequest(host, host.baseAddress.value, EventBody(codec, args))]
    ensures host.baseAddress.None? ==>
      SendEvent(host, s, args, codec, reply) == Fail(SendEvent(host, s, args, codec, reply).state, NoBaseAddress(CapturePath))
      && SendEvent(host, s, args, codec, reply).state.sent == s.sent
  {
    var body := EventBody(codec, args);
    var s1, b := SendEventSplits(host, s, args, codec, reply);
    assert DataIntact(s1.guest.mem) by { DataStaysIntact(s.guest, s1.guest); }
    DotnetPreparesEvent(s1.guest.mem, b, body, host.baseAddress, codec);
    if host.baseAddress.Some? {
      PostEventSends(host, s1, b, codec, reply, EventRequest(host, host.baseAddress.value, body));
    } else {
      PostEventRefused(host, s1, b, codec, reply);
    }
  }

  /** The Node half of `SendEventPostsPayload`. */
  lemma NodeSendsPayload(s: State, args: EventArgs, codec: Codec, reply: Reply)
    requires Wf(s.guest) && DataIntact(s.guest.mem) && Lawful(codec)
    requires s.hostData.Some? ==> Below(s.guest, s.hostData.value)
    ensures s.hostData.Some? ==>
      var h := s.hostData.value;
      SendEvent(Node, s, args, codec, reply).state.sent ==
        s.sent + [EventRequest(Node, NodeHost.WasmToString(s.guest.mem, h.ptr, h.len), EventBody(codec, args))]
    ensures s.hostData.None? ==>
      SendEvent(Node, s, args, codec, reply) == Fail(SendEvent(Node, s, args, codec, reply).state, HostNotSet)
      && SendEvent(Node, s, args, codec, reply).state.sent == s.sent
  {
    var body := EventBody(codec, args);
    var s1, b := SendEventSplits(Node, s, args, codec, reply);
    assert DataIntact(s1.guest.mem) by { DataStaysIntact(s.guest, s1.guest); }
    if s.hostData.Some? {
      NodePostsPayload(s, s1, b, body, codec, reply);
    } else {
      assert PostEvent(Node, s1, b, codec, reply) == Fail(s1, HostNotSet) by {
        assert CallHttpRequest(Node, s1, EventArgsFor(b), codec, reply) == Fail(s1, HostNotSet);
      }
    }
  }

  lemma NodePostsPayload(s: State, s1: State, b: Buf, body: seq<uint8>, codec: Codec, reply: Reply)
    requires s1 == s.(guest := s1.guest) && Grows(s.guest, s1.guest) && DataIntact(s1.guest.mem)
    requires s.hostData.Some? && Below(s.guest, s.hostData.value)
    requires b.len == |body| > 0 && Load(s1.guest.mem, b.ptr, b.len) == Ok(body)
    requires codec.parse(DecodeLossyBom(body)).Some?
    ensures var h := s.hostData.value;
      PostEvent(Node, s1, b, codec, reply).state.sent ==
        s.sent + [EventRequest(Node, NodeHost.WasmToString(s.guest.mem, h.ptr, h.len), body)]
  {
    var h := s.hostData.value;
    var base := NodeHost.WasmToString(s.guest.mem, h.ptr, h.len);
    HostUrlSurvives(s.guest, s1.guest, h);
    NodePreparesEvent(s1, b, body, base, codec);
    PostEventSends(Node, s1, b, codec, reply, EventRequest(Node, base, body));
  }

  /** The Node host's URL buffer reads the same after the heap has grown. */
  lemma HostUrlSurvives(g: Guest, g': Guest, h: Buf)
    requires Below(g, h) && Grows(g, g')
    ensures NodeHost.WasmToString(g'.mem, h.ptr, h.len) == NodeHost.WasmToString(g.mem, h.ptr, h.len)
  {
    BelowAcrossGrowth(g, g', h);
    SameBytesSameText(g.mem, g'.mem, h.ptr, h.len);
  }

  lemma SameBytesSameText(m: Memory, m': Memory, ptr: int, len: int)
    requires InBounds(m, ptr, len) && InBounds(m', ptr, len)
    requires m'[ptr..ptr + len] == m[ptr..ptr + len]
    ensures NodeHost.WasmToString(m', ptr, len) == NodeHost.WasmToString(m, ptr, len)
  {
  }

  /** Given the static strings and a body that is JSON, the .NET host builds the
      event request from `send_event`'s arguments when its client has a base
      address, and otherwise refuses the relative `/capture`. */
  lemma DotnetPreparesEvent(mem: Memory, b: Buf, body: seq<uint8>, baseAddress: Option<string>, codec: Codec)
    requires DataIntact(mem)
    requires b.len == |body| > 0 && Load(mem, b.ptr, b.len) == Ok(body)
    requires codec.parse(DecodeLossy(body)).Some?
    ensures baseAddress.Some? ==>
      DotnetHost.PrepareRequest(mem, EventArgsFor(b), baseAddress, codec) ==
        Ok(EventRequest(Dotnet(baseAddress), baseAddress.value, body))
    ensures baseAddress.None? ==>
      DotnetHost.PrepareRequest(mem, EventArgsFor(b), baseAddress, codec) == Err(NoBaseAddress(CapturePath))
  {
    StaticArgsRead(mem);
    PostIsNormal();
    CaptureIsRelative();
    var a := EventArgsFor(b);
    assert DotnetHost.ReadArg(mem, a.url) == Ok(CapturePath);
    assert DotnetHost.ReadArg(mem, a.verb) == Ok(Post);
    match baseAddress
    case Some(base) =>
      assert DotnetHost.ResolveUri(CapturePath, baseAddress) == Some(Relative(CapturePath, base));
      DotnetAttachesEvent(mem, b, body, Relative(CapturePath, base), codec);
    case None =>
      assert DotnetHost.ResolveUri(CapturePath, baseAddress).None?;
      DotnetAttachesEvent(mem, b, body, Absolute(CapturePath), codec);
  }

  /** The .NET host attaches a JSON event body to a POST as it is, with the
      JSON content type, whatever the target. */
  lemma DotnetAttachesEvent(mem: Memory, b: Buf, body: seq<uint8>, target: Target, codec: Codec)
    requires b.len == |body| > 0 && Load(mem, b.ptr, b.len) == Ok(body)
    requires codec.parse(DecodeLossy(body)).Some?
    ensures DotnetHost.AttachBody(mem, Post, target, b, codec) ==
      Ok(Http.Request(Post, target, [Header("Content-Type", "application/json")], Some(body)))
  {
    PostIsNormal();
    assert ChooseBody(Post, b.len) == GuestBytes;
  }

  /** Given the static strings, a recorded host URL and a body that is JSON, the
      Node host builds the event request from `send_event`'s arguments. */
  lemma NodePreparesEvent(s: State, b: Buf, body: seq<uint8>, base: string, codec: Codec)
    requires DataIntact(s.guest.mem)
    requires b.len == |body| > 0 && Load(s.guest.mem, b.ptr, b.len) == Ok(body)
    requires codec.parse(DecodeLossyBom(body)).Some?
    requires s.hostData.Some?
    requires NodeHost.WasmToString(s.guest.mem, s.hostData.value.ptr, s.hostData.value.len) == base
    ensures NodeHost.PrepareRequest(s, EventArgsFor(b), codec) == Ok(EventRequest(Node, base, body))
  {
    var mem := s.guest.mem;
    NodeReadsStatics(mem);
    NodeAttachesEvent(mem, base, b, body, codec);
    EventPassesFetch(base, body);
  }

  /** `fetch` lets the event request through: POST is an allowed method and may carry a body. */
  lemma EventPassesFetch(base: string, body: seq<uint8>)
    ensures NodeHost.FetchCheck(EventRequest(Node, base, body)) == Ok(EventRequest(Node, base, body))
  {
    PostIsNormal();
  }

  lemma NodeReadsStatics(mem: Memory)
    requires DataIntact(mem)
    ensures NodeMethod(NodeHost.WasmToString(mem, PostAddr, 4)) == Post
    ensures NodeHost.WasmToString(mem, CaptureAddr, 8) == CapturePath
  {
    StaticArgsRead(mem);
    PostIsNormal();
  }

  lemma NodeAttachesEvent(mem: Memory, base: string, b: Buf, body: seq<uint8>, codec: Codec)
    requires b.len == |body| > 0 && Load(mem, b.ptr, b.len) == Ok(body)
    requires codec.parse(DecodeLossyBom(body)).Some?
    ensures NodeHost.AttachBody(mem, Post, Relative(CapturePath, base), b, codec) == Ok(EventRequest(Node, base, body))
  {
    DecodeLossyBomStrips(body);
    assert NodeHost.WasmToString(mem, b.ptr, b.len) == DecodeLossyBom(body);
  }

  /** Once the host has built its request, that request is what `send_event` leaves in the log. */
  lemma PostEventSends(host: HostKind, s: State, body: Buf, codec: Codec, reply: Reply, req: Http.Request)
    requires host.Dotnet? ==> DotnetHost.PrepareRequest(s.guest.mem, EventArgsFor(body), host.baseAddress, codec) == Ok(req)
    requires host == Node ==> NodeHost.PrepareRequest(s, EventArgsFor(body), codec) == Ok(req)
    ensures PostEvent(host, s, body, codec, reply).state.sent == s.sent + [req]
  {
    var r := CallHttpRequest(host, s, EventArgsFor(body), codec, reply);
    assert r.state.sent == s.sent + [req];
  }

  /** A .NET host that cannot build the request fails `send_event` at once,
      with the state it was given. */
  lemma PostEventRefused(host: HostKind, s: State, body: Buf, codec: Codec, reply: Reply)
    requires host.Dotnet? && DotnetHost.PrepareRequest(s.guest.mem, EventArgsFor(body), host.baseAddress, codec).Err?
    ensures PostEvent(host, s, body, codec, reply) ==
      Fail(s, DotnetHost.PrepareRequest(s.guest.mem, EventArgsFor(body), host.baseAddress, codec).error)
  {
  }

  /** A host that builds the request, gets a success status and (for Node) a
      JSON reply lets `PostEvent` complete. */
  lemma PostEventSucceeds(host: HostKind, s: State, b: Buf, codec: Codec, reply: Reply, req: Http.Request)
    requires Wf(s.guest)
    requires b.len > 0 && b.ptr in s.guest.live && s.guest.live[b.ptr] == b.len
    requires host.Dotnet? ==> DotnetHost.PrepareRequest(s.guest.mem, EventArgsFor(b), host.baseAddress, codec) == Ok(req)
    requires host == Node ==> NodeHost.PrepareRequest(s, EventArgsFor(b), codec) == Ok(req)
    requires reply.Answered? && IsSuccess(reply.status)
    requires host == Node ==> codec.parse(DecodeLossyBom(reply.body)).Some?
    ensures PostEvent(host, s, b, codec, reply).Done?
  {
    HttpRequestContract(host, s, EventArgsFor(b), codec, reply);
    var r2 := CallHttpRequest(host, s, EventArgsFor(b), codec, reply);
    assert r2.Done?;
    HeldIsBelow(r2.state.guest, Buf(r2.value, r2.state.latestLen));
    FinishEventFrees(r2.state, r2.value, b);
  }

  /** `send_event` completes when the data segment is intact, the reply is a
      success, the .NET host's client has a base address, and, on Node, a
      host URL is recorded and the reply is JSON. */
  lemma SendEventSucceeds(host: HostKind, s: State, args: EventArgs, codec: Codec, reply: Reply)
    requires Wf(s.guest) && DataIntact(s.guest.mem) && Lawful(codec)
    requires reply.Answered? && IsSuccess(reply.status)
    requires host.Dotnet? ==> host.baseAddress.Some?
    requires host == Node ==>
      s.hostData.Some? && Below(s.guest, s.hostData.value) && codec.parse(DecodeLossyBom(reply.body)).Some?
    ensures SendEvent(host, s, args, codec, reply).Done?
  {
    var s1, b := SendEventSplits(host, s, args, codec, reply);
    if host.Dotnet? {
      DotnetPostSucceeds(host, s, s1, b, args, codec, reply);
    } else {
      NodePostSucceeds(s, s1, b, args, codec, reply);
    }
  }

  /** The .NET half of `SendEventSucceeds`: after the body is allocated, the
      host call and the copy complete. */
  lemma DotnetPostSucceeds(host: HostKind, s: State, s1: State, b: Buf, args: EventArgs, codec: Codec, reply: Reply)
    requires host.Dotnet? && host.baseAddress.Some?
    requires Wf(s.guest) && DataIntact(s.guest.mem)
    requires Wf(s1.guest) && Grows(s.guest, s1.guest)
    requires b.len == |EventBody(codec, args)| > 0
    requires Load(s1.guest.mem, b.ptr, b.len) == Ok(EventBody(codec, args))
    requires b.ptr in s1.guest.live && s1.guest.live[b.ptr] == b.len
    requires codec.parse(DecodeLossy(EventBody(codec, args))).Some?
    requires reply.Answered? && IsSuccess(reply.status)
    ensures PostEvent(host, s1, b, codec, reply).Done?
  {
    var body := EventBody(codec, args);
    DataStaysIntact(s.guest, s1.guest);
    DotnetPreparesEvent(s1.guest.mem, b, body, host.baseAddress, codec);
    PostEventSucceeds(host, s1, b, codec, reply, EventRequest(host, host.baseAddress.value, body));
  }

  /** The Node half of `SendEventSucceeds`: the recorded host URL survives the
      body's allocation, so the host builds the request and the call completes. */
  lemma NodePostSucceeds(s: State, s1: State, b: Buf, args: EventArgs, codec: Codec, reply: Reply)
    requires Wf(s.guest) && DataIntact(s.guest.mem)
    requires s1 == s.(guest := s1.guest) && Wf(s1.guest) && Grows(s.guest, s1.guest)
    requires b.len == |EventBody(codec, args)| > 0
    requires Load(s1.guest.mem, b.ptr, b.len) == Ok(EventBody(codec, args))
    requires b.ptr in s1.guest.live && s1.guest.live[b.ptr] == b.len
    requires codec.parse(DecodeLossyBom(EventBody(codec, args))).Some?
    requires reply.Answered? && IsSuccess(reply.status) && codec.parse(DecodeLossyBom(reply.body)).Some?
    requires s.hostData.Some? && Below(s.guest, s.hostData.value)
    ensures PostEvent(Node, s1, b, codec, reply).Done?
  {
    var body := EventBody(codec, args);
    var h := s.hostData.value;
    var base := NodeHost.WasmToString(s.guest.mem, h.ptr, h.len);
    DataStaysIntact(s.guest, s1.guest);
    HostUrlSurvives(s.guest, s1.guest, h);
    NodePreparesEvent(s1, b, body, base, codec);
    PostEventSucceeds(Node, s1, b, codec, reply, EventRequest(Node, base, body));
  }

  /** The host call, copy and drop that follow the body's allocation: the
      result holds exactly the bytes the host wrote, two blocks of that length
      are added (the host's and the copy) and the body block is freed. */
  lemma PostEventReturnsResponse(host: HostKind, s: State, b: Buf, codec: Codec, reply: Reply)
    requires Wf(s.guest)
    requires b.len > 0 && b.ptr in s.guest.live && s.guest.live[b.ptr] == b.len
    requires PostEvent(host, s, b, codec, reply).Done?
    ensures var r := PostEvent(host, s, b, codec, reply);
      && reply.Answered? && IsSuccess(reply.status)
      && HostResponse(host, codec, reply.body).Some?
      && var bytes := HostResponse(host, codec, reply.body).value;
      && r.state.latestLen == |bytes|
      && Load(r.state.guest.mem, r.value, |bytes|) == Ok(bytes)
      && (|bytes| == 0 ==> r.state.guest.live == s.guest.live - {b.ptr} && r.value == Dangling)
      && (|bytes| > 0 ==>
            exists resp :: (resp !in s.guest.live && r.value !in s.guest.live && resp != r.value &&
                            r.state.guest.live == s.guest.live[resp := |bytes|][r.value := |bytes|] - {b.ptr}))
  {
    var s2, resp := PostEventCalls(host, s, b, codec, reply);
    var n := s2.latestLen;
    HeldIsBelow(s2.guest, Buf(resp, n));
    FinishEventFrees(s2, resp, b);
    var r := FinishEvent(s2, resp, b);
    if n > 0 {
      assert resp !in s.guest.live && r.value !in s.guest.live && resp != r.value &&
             r.state.guest.live == s.guest.live[resp := n][r.value := n] - {b.ptr};
    }
  }

  /** A `PostEvent` that completes called the host successfully and then finished. */
  lemma PostEventCalls(host: HostKind, s: State, b: Buf, codec: Codec, reply: Reply) returns (s2: State, resp: int)
    requires Wf(s.guest)
    requires PostEvent(host, s, b, codec, reply).Done?
    ensures CallHttpRequest(host, s, EventArgsFor(b), codec, reply) == Done(s2, resp)
    ensures PostEvent(host, s, b, codec, reply) == FinishEvent(s2, resp, b)
    ensures reply.Answered? && IsSuccess(reply.status) && HostResponse(host, codec, reply.body).Some?
    ensures var bytes := HostResponse(host, codec, reply.body).value;
      && Wf(s2.guest) && Keeps(s.guest, s2.guest)
      && s2.latestLen == |bytes|
      && Load(s2.guest.mem, resp, |bytes|) == Ok(bytes)
      && s2.guest.live == (if |bytes| == 0 then s.guest.live else s.guest.live[resp := |bytes|])
      && (|bytes| == 0 ==> resp == Dangling)
  {
    HttpRequestContract(host, s, EventArgsFor(b), codec, reply);
    var r2 := CallHttpRequest(host, s, EventArgsFor(b), codec, reply);
    s2, resp := r2.state, r2.value;
  }

  /** `send_event` leaves the heap as it found it, except for two blocks of the
      response's length: the host's and the guest's copy, which holds exactly the
      bytes the host wrote. The body string is freed. */
  lemma SendEventReturnsResponse(host: HostKind, s: State, args: EventArgs, codec: Codec, reply: Reply)
    requires Wf(s.guest) && Lawful(codec)
    requires SendEvent(host, s, args, codec, reply).Done?
    ensures var r := SendEvent(host, s, args, codec, reply);
      && reply.Answered? && IsSuccess(reply.status)
      && HostResponse(host, codec, reply.body).Some?
      && var bytes := HostResponse(host, codec, reply.body).value;
      && r.state.latestLen == |bytes|
      && Load(r.state.guest.mem, r.value, |bytes|) == Ok(bytes)
      && (|bytes| == 0 ==> r.state.guest.live == s.guest.live && r.value == Dangling)
      && (|bytes| > 0 ==>
            exists resp :: (resp != r.value && resp !in s.guest.live && r.value !in s.guest.live &&
                            r.state.guest.live == s.guest.live[resp := |bytes|][r.value := |bytes|]))
  {
    var body := EventBody(codec, args);
    EventBodyIsJson(codec, args);
    var r1 := AllocCopy(s.guest, body);
    var g1, bodyPtr := r1.value.0, r1.value.1;
    var s1 := s.(guest := g1);
    var b := Buf(bodyPtr, |body|);
    assert SendEvent(host, s, args, codec, reply) == PostEvent(host, s1, b, codec, reply);
    PostEventReturnsResponse(host, s1, b, codec, reply);
    var r := PostEvent(host, s1, b, codec, reply);
    var n := r.state.latestLen;
    if n > 0 {
      var resp :| resp !in g1.live && r.value !in g1.live && resp != r.value &&
                  r.state.guest.live == g1.live[resp := n][r.value := n] - {bodyPtr};
      DropFresh(s.guest.live, bodyPtr, |body|, resp, r.value, n);
    } else {
      DropOne(s.guest.live, bodyPtr, |body|);
    }
  }

  /** `send_event`'s effect on the heap as a ledger: it adds exactly the host's
      response block and the guest's copy, both of the response's length, and
      the copy holds the bytes the host wrote. For an empty response both are
      the empty buffer at the dangling pointer and nothing is added. */
  lemma SendEventDelivers(host: HostKind, s: State, args: EventArgs, codec: Codec, reply: Reply) returns (resp: Buf, out: Buf)
    requires Wf(s.guest) && Lawful(codec)
    requires SendEvent(host, s, args, codec, reply).Done?
    ensures var r := SendEvent(host, s, args, codec, reply);
      && reply.Answered? && IsSuccess(reply.status)
      && HostResponse(host, codec, reply.body).Some?
      && var bytes := HostResponse(host, codec, reply.body).value;
      && out == Buf(r.value, |bytes|) && resp.len == |bytes|
      && r.state.latestLen == |bytes|
      && Load(r.state.guest.mem, out.ptr, out.len) == Ok(bytes)
      && AddsExactly(s.guest, r.state.guest, [resp, out])
  {
    SendEventReturnsResponse(host, s, args, codec, reply);
    var r := SendEvent(host, s, args, codec, reply);
    out := Buf(r.value, r.state.latestLen);
    resp := AddsResponsePair(s.guest, r.state.guest, r.value, r.state.latestLen);
  }

  lemma DropOne(m: map<int, nat>, p: int, size: nat)
    requires p !in m
    ensures m[p := size] - {p} == m
  {
    assert (m[p := size] - {p}).Keys == m.Keys;
  }

  /** Adding a block and freeing it again leaves the ledger as if it had never been. */
  lemma DropFresh(m: map<int, nat>, p: int, size: nat, q1: int, q2: int, n: nat)
    requires p !in m && p != q1 && p != q2
    ensures m[p := size][q1 := n][q2 := n] - {p} == m[q1 := n][q2 := n]
  {
    var lhs := m[p := size][q1 := n][q2 := n] - {p};
    var rhs := m[q1 := n][q2 := n];
    assert lhs.Keys == rhs.Keys;
    assert forall k :: k in lhs ==> lhs[k] == rhs[k];
  }

  /** The range `log(properties_str)` hands to the host (rust/src/lib.rs
      lines 93-96 and 155-159): the properties argument itself when it is
      UTF-8, otherwise the static `"{}"` of the data segment. */
  function LogBuffer(mem: Memory, b: Buf): (m: Buf)
    requires Viewable(mem, b)
    ensures Decode(View(mem, b)).Some? ==> m == b
    ensures Decode(View(mem, b)).None? ==> b.len > 0 && 0 <= m.ptr && m.ptr + m.len <= HeapBase
  {
    if Decode(View(mem, b)).Some? then b else Buf(FallbackAddr, 2)
  }

  /** The host's `log_message` import. The .NET host reads the message with
      `ReadString` (dotnet/WasmClient.cs lines 71-77), whose bounds check
      throws for a range outside memory even when it is empty. The Node host
      reads with the clamping `wasmToString` and then runs the text through
      `JSON.parse` (node-ts/src/wasm.ts lines 127-132), which throws on text
      that is not JSON. */
  function LogMessage(host: HostKind, mem: Memory, msg: Buf, codec: Codec): (r: Result<()>)
    ensures host.Dotnet? ==> (r.Ok? <==> InBounds(mem, msg.ptr, DotnetHost.AsUInt(msg.len)))
    ensures host.Dotnet? && r.Err? ==> r.error == OutOfBounds(msg.ptr, DotnetHost.AsUInt(msg.len), |mem|)
    ensures host == Node ==> (r.Err? <==> codec.parse(NodeHost.WasmToString(mem, msg.ptr, msg.len)).None?)
    ensures host == Node && r.Err? ==> r.error == MalformedJson
  {
    match host
    case Dotnet(_) =>
      (match DotnetHost.ReadArg(mem, msg)
       case Err(e) => Err(e)
       case Ok(_) => Ok(()))
    case Node =>
      if codec.parse(NodeHost.WasmToString(mem, msg.ptr, msg.len)).None? then Err(MalformedJson) else Ok(())
  }

  /** Logging the properties of a `capture` call whose arguments decode: on
      .NET it fails exactly when the properties range lies outside memory,
      which only an empty range can do; on Node it fails exactly when the
      decoded properties text, less a leading U+FEFF, is not JSON. */
  lemma LogsProperties(host: HostKind, mem: Memory, c: CaptureArgs, codec: Codec)
    requires DataIntact(mem) && ReadArgs(mem, c).Ok?
    ensures host.Dotnet? ==>
      (LogMessage(host, mem, LogBuffer(mem, c.properties), codec).Ok? <==> InBounds(mem, c.properties.ptr, c.properties.len))
    ensures host.Dotnet? && !InBounds(mem, c.properties.ptr, c.properties.len) ==> c.properties.len == 0
    ensures host == Node ==>
      (LogMessage(host, mem, LogBuffer(mem, c.properties), codec).Ok? <==>
        codec.parse(StripBom(ReadArgs(mem, c).value.properties)).Some?)
  {
    var b := c.properties;
    assert ReadArgs(mem, c).value.properties == DecodeOr(View(mem, b), PropertiesFallback);
    if Decode(View(mem, b)).Some? {
      LogsValidText(host, mem, b, codec);
    } else {
      LogsFallback(host, mem, b, codec);
    }
  }

  /** A properties range that is UTF-8 is logged as its own text. */
  lemma LogsValidText(host: HostKind, mem: Memory, b: Buf, codec: Codec)
    requires Viewable(mem, b) && Decode(View(mem, b)).Some?
    ensures LogBuffer(mem, b) == b
    ensures host.Dotnet? ==> (LogMessage(host, mem, b, codec).Ok? <==> InBounds(mem, b.ptr, b.len))
    ensures host == Node ==> (LogMessage(host, mem, b, codec).Ok? <==> codec.parse(StripBom(Decode(View(mem, b)).value)).Some?)
  {
    ValidTextReads(mem, b);
  }

  /** `wasmToString` of a range that is UTF-8 is its text less a leading U+FEFF. */
  lemma ValidTextReads(mem: Memory, b: Buf)
    requires Viewable(mem, b) && Decode(View(mem, b)).Some?
    ensures 0 <= b.len && NodeHost.WasmToString(mem, b.ptr, b.len) == StripBom(Decode(View(mem, b)).value)
  {
    if b.len == 0 {
      assert View(mem, b) == [];
      EmptyTextReads(mem, b.ptr);
    } else {
      assert View(mem, b) == mem[b.ptr..b.ptr + b.len];
      InBoundsTextReads(mem, b.ptr, b.len);
    }
  }

  lemma InBoundsTextReads(mem: Memory, ptr: int, len: int)
    requires InBounds(mem, ptr, len) && Decode(mem[ptr..ptr + len]).Some?
    ensures NodeHost.WasmToString(mem, ptr, len) == StripBom(Decode(mem[ptr..ptr + len]).value)
  {
    LossyAgreesOnValid(mem[ptr..ptr + len]);
    NodeHost.WasmToStringInBounds(mem, ptr, len);
  }

  /** `wasmToString` of an empty range is the empty text wherever it points. */
  lemma EmptyTextReads(mem: Memory, ptr: int)
    ensures NodeHost.WasmToString(mem, ptr, 0) == "" && Decode([]) == Some("")
  {
    assert Slice(mem, ptr, ptr + 0) == [];
    DecodeLossyBomStrips([]);
    DecodeEncode("");
  }

  /** A properties range that is not UTF-8 is logged as the static `"{}"`,
      which is in memory and is JSON-shaped text for both hosts. */
  lemma LogsFallback(host: HostKind, mem: Memory, b: Buf, codec: Codec)
    requires DataIntact(mem) && Viewable(mem, b) && Decode(View(mem, b)).None?
    ensures InBounds(mem, b.ptr, b.len)
    ensures host.Dotnet? ==> LogMessage(host, mem, LogBuffer(mem, b), codec) == Ok(())
    ensures host == Node ==> (LogMessage(host, mem, LogBuffer(mem, b), codec).Ok? <==> codec.parse(StripBom(PropertiesFallback)).Some?)
  {
    EmptyTextReads(mem, b.ptr);
    assert LogBuffer(mem, b) == Buf(FallbackAddr, 2);
    FallbackReads(mem);
    assert StripBom(PropertiesFallback) == PropertiesFallback;
  }

  /** On .NET, `capture` with decodable arguments whose properties range lies
      outside memory fails in `log_message` with OutOfBounds, before
      `send_event` runs; only an empty properties range can do this. */
  lemma DotnetLogRejectsStray(baseAddress: Option<string>, s: State, c: CaptureArgs, codec: Codec, reply: Reply)
    requires DataIntact(s.guest.mem) && ReadArgs(s.guest.mem, c).Ok?
    requires !InBounds(s.guest.mem, c.properties.ptr, c.properties.len)
    ensures c.properties.len == 0
    ensures Capture(Dotnet(baseAddress), s, c, codec, reply) == Fail(s, OutOfBounds(c.properties.ptr, 0, |s.guest.mem|))
  {
    LogsProperties(Dotnet(baseAddress), s.guest.mem, c, codec);
  }

  /** With the data segment intact, both hosts read the static `"{}"` back as written. */
  lemma FallbackReads(mem: Memory)
    requires DataIntact(mem)
    ensures DotnetHost.ReadArg(mem, Buf(FallbackAddr, 2)) == Ok(PropertiesFallback)
    ensures NodeHost.WasmToString(mem, FallbackAddr, 2) == PropertiesFallback
  {
    StaticStringsFit();
    DecodeEncode(PropertiesFallback);
  }

  /** Properties a host wrote as the encoding of its text are logged as that
      text: .NET always succeeds, and Node succeeds exactly when the text,
      less a leading U+FEFF, is JSON. */
  lemma LogsEncodedText(host: HostKind, mem: Memory, b: Buf, text: string, codec: Codec)
    requires Load(mem, b.ptr, b.len) == Ok(Encode(text))
    ensures Viewable(mem, b) && LogBuffer(mem, b) == b
    ensures host.Dotnet? ==> LogMessage(host, mem, b, codec) == Ok(())
    ensures host == Node ==> (LogMessage(host, mem, b, codec).Ok? <==> codec.parse(StripBom(text)).Some?)
  {
    assert View(mem, b) == Encode(text);
    DecodeEncode(text);
    LogsValidText(host, mem, b, codec);
  }

  /** Under a lawful codec, properties holding serialised JSON are logged
      without error by either host. */
  lemma LogsSerialized(host: HostKind, mem: Memory, b: Buf, v: JVal, codec: Codec)
    requires Lawful(codec) && Load(mem, b.ptr, b.len) == Ok(Encode(codec.serialize(v)))
    ensures LogMessage(host, mem, LogBuffer(mem, b), codec) == Ok(())
  {
    LogsEncodedText(host, mem, b, codec.serialize(v), codec);
    assert StripBom(codec.serialize(v)) == codec.serialize(v);
  }

  /** The `capture` export (rust/src/lib.rs lines 73-103): decode the four
      arguments, log the properties text, send the event. */
  function Capture(host: HostKind, s: State, c: CaptureArgs, codec: Codec, reply: Reply): (r: Step<int>)
    ensures Grows(s.guest, r.state.guest) && r.state.hostData == s.hostData
    ensures Wf(s.guest) ==> Wf(r.state.guest) && Keeps(s.guest, r.state.guest)
    ensures r.Done? && Wf(s.guest) && r.state.latestLen > 0 ==> r.value !in s.guest.live
    ensures ReadArgs(s.guest.mem, c).Err? ==> r == Fail(s, ReadArgs(s.guest.mem, c).error)
    ensures ReadArgs(s.guest.mem, c).Ok? ==>
      var logged := LogMessage(host, s.guest.mem, LogBuffer(s.guest.mem, c.properties), codec);
      && (logged.Err? ==> r == Fail(s, logged.error))
      && (logged.Ok? ==> r == SendEvent(host, s, ReadArgs(s.guest.mem, c).value, codec, reply))
  {
    match ReadArgs(s.guest.mem, c)
    case Err(e) => Fail(s, e)
    case Ok(args) =>
      match LogMessage(host, s.guest.mem, LogBuffer(s.guest.mem, c.properties), codec)
      case Err(e) => Fail(s, e)
      case Ok(_) => SendEvent(host, s, args, codec, reply)
  }

}

/** The Node host's module state and `captureEvent` (node-ts/src/wasm.ts):
    `initWasm` installs the guest once, and `captureEvent` writes five strings
    into the guest, swaps the recorded host buffer, calls `capture`, reads the
    result back with the recorded length and releases everything but the host
    buffer.

    The host passes `capture` two more arguments (the host buffer) than the
    guest declares; WebAssembly drops them, so the call is the 8-argument
    `capture`. The properties text is taken as given: it is what
    `JSON.stringify` made of the caller's object.
 */
module NodeClient {
  import opened Outcomes
  import opened Utf8
  import opened Json
  import opened LinearMemory
  import opened GuestHeap
  import opened Http
  import opened Bridge
  import opened GuestExports
  import NodeHost

  /** `isInitialized` together with the module state: the guest instance and
      the module globals `latestHttpRequestResponseLength` and
      `currentHostData`. */
  datatype Runtime = Runtime(initialized: bool, state: State)

  /** `initWasm` (lines 31-35 and 136-154): a second call returns at once; the
      first installs the freshly instantiated guest, given as `instance`, and
      leaves the module globals as they were. */
  function InitWasm(rt: Runtime, instance: Guest): (r: Runtime)
    ensures r.initialized
    ensures r.state == rt.state.(guest := r.state.guest)
    ensures !rt.initialized ==> r.state.guest == instance
  {
    if rt.initialized then rt else rt.(initialized := true, state := rt.state.(guest := instance))
  }

  /** Once initialised, `initWasm` changes nothing, whatever instance it would
      have installed; so initialising twice is initialising once. */
  lemma InitWasmIdempotent(rt: Runtime, first: Guest, second: Guest)
    ensures InitWasm(InitWasm(rt, first), second) == InitWasm(rt, first)
    ensures rt.initialized ==> InitWasm(rt, first) == rt
  {
  }

  /** The host `captureEvent` uses when the caller names none. */
  const DefaultHost: string := "http://localhost:8000"

  /** Lines 189-193: release the previous host buffer, if there is one, and
      record the new one. */
  function SwapHost(s: State, host: Buf): (r: Step<()>)
    ensures r.Done? ==> r.state.hostData == Some(host)
    ensures Grows(s.guest, r.state.guest) && (Wf(s.guest) ==> Wf(r.state.guest))
    ensures r.state.latestLen == s.latestLen && r.state.sent == s.sent
    ensures s.hostData.None? ==> r == Done(s.(hostData := Some(host)), ())
    ensures s.hostData.Some? && (s.hostData.value.len == 0 || Holds(s.guest, s.hostData.value)) ==>
      r == Done(s.(guest := Without(s.guest, s.hostData.value), hostData := Some(host)), ())
    ensures s.hostData.Some? && s.hostData.value.len != 0 && !Holds(s.guest, s.hostData.value) ==>
      r == Fail(s, BadRelease(s.hostData.value.ptr, s.hostData.value.len))
  {
    match s.hostData
    case None => Done(s.(hostData := Some(host)), ())
    case Some(prev) =>
      match Release(s.guest, prev.ptr, prev.len)
      case Err(e) => Fail(s, e)
      case Ok(g) => Done(s.(guest := g, hostData := Some(host)), ())
  }

  /** Lines 182-186: the five strings `captureEvent` writes, in order: the
      four `capture` arguments, then the host. */
  function WriteArguments(g: Guest, a: EventArgs, host: string): (r: Result<(Guest, CaptureArgs, Buf)>)
    ensures Wf(g) ==> r.Ok? && Wf(r.value.0) && Grows(g, r.value.0)
    ensures r.Ok? ==>
      WriteAll(g, [a.event, a.distinctId, a.apiKey, a.properties, host]) ==
      Ok((r.value.0, ArgumentBuffers(r.value.1) + [r.value.2]))
  {
    match WriteAll(g, [a.event, a.distinctId, a.apiKey, a.properties, host])
    case Err(e) => Err(e)
    case Ok((g1, bufs)) =>
      FiveBuffers(bufs);
      Ok((g1, CaptureArgs(bufs[0], bufs[1], bufs[2], bufs[3]), bufs[4]))
  }

  /** Lines 208-222: read the response with the recorded length, then release
      the four argument buffers and the response, in that order. The text is
      the response as `TextDecoder` reads it; every other block stays; the
      release succeeds when the five buffers are held apart. */
  function FinishCapture(s: State, c: CaptureArgs, respPtr: int): (r: Step<string>)
    ensures r.state == s.(guest := r.state.guest)
    ensures Grows(s.guest, r.state.guest) && r.state.guest.mem == s.guest.mem
    ensures Wf(s.guest) ==> Wf(r.state.guest)
    ensures forall p :: p in s.guest.live && !Names(ArgumentBuffers(c) + [Buf(respPtr, s.latestLen)], p) ==>
      p in r.state.guest.live && r.state.guest.live[p] == s.guest.live[p]
    ensures r.Done? ==> forall p :: Names(ArgumentBuffers(c) + [Buf(respPtr, s.latestLen)], p) ==> p !in r.state.guest.live
    ensures HeldApart(s.guest, ArgumentBuffers(c) + [Buf(respPtr, s.latestLen)]) ==> r.Done?
    ensures r.Done? && InBounds(s.guest.mem, respPtr, s.latestLen) ==>
      r.value == StripBom(DecodeLossy(s.guest.mem[respPtr..respPtr + s.latestLen]))
  {
    var result := NodeHost.WasmToString(s.guest.mem, respPtr, s.latestLen);
    assert InBounds(s.guest.mem, respPtr, s.latestLen) ==>
      result == StripBom(DecodeLossy(s.guest.mem[respPtr..respPtr + s.latestLen])) by {
      if InBounds(s.guest.mem, respPtr, s.latestLen) { NodeHost.WasmToStringInBounds(s.guest.mem, respPtr, s.latestLen); }
    }
    var released := ReleaseAll(s, ArgumentBuffers(c) + [Buf(respPtr, s.latestLen)]);
    var r := if released.Done? then Done(released.state, result) else Fail(released.state, released.error);
    assert r.state == released.state && r.Done? == released.Done?;
    r
  }

  /** `captureEvent` (lines 172-223). The heap only grows, and the module
      globals other than the host buffer are only those `capture` sets. */
  function CaptureEvent(rt: Runtime, instance: Guest, a: EventArgs, host: string, codec: Codec, reply: Reply): (r: Step<string>)
    ensures var s := InitWasm(rt, instance).state;
      Wf(s.guest) ==> Wf(r.state.guest) && Grows(s.guest, r.state.guest)
    ensures var s := InitWasm(rt, instance).state;
      Wf(s.guest) ==> r.state.hostData.Some?
  {
    var s := InitWasm(rt, instance).state;
    match WriteArguments(s.guest, a, host)
    case Err(e) => Fail(s, e)
    case Ok((g1, c, h)) =>
      var r := SwapAndCapture(s.(guest := g1), c, h, codec, reply);
      assert Wf(s.guest) ==> Grows(s.guest, r.state.guest) by {
        if Wf(s.guest) { GrowsTransitive(s.guest, g1, r.state.guest); }
      }
      r
  }

  /** `captureEvent` called without its last two arguments (lines 176-177):
      the properties default to `{}`, which `JSON.stringify` writes as "{}",
      and the host to `DefaultHost`. */
  function CaptureEventDefaults(rt: Runtime, instance: Guest, event: string, distinctId: string, apiKey: string,
                                codec: Codec, reply: Reply): Step<string>
  {
    CaptureEvent(rt, instance, EventArgs(event, distinctId, apiKey, "{}"), DefaultHost, codec, reply)
  }

  /** With the default arguments, whatever the reply, the recorded host
      buffer holds the encoding of "http://localhost:8000" and reads back as
      that URL. */
  lemma DefaultsRecordLocalhost(rt: Runtime, instance: Guest, event: string, distinctId: string, apiKey: string,
                                codec: Codec, reply: Reply) returns (h: Buf)
    requires var s := InitWasm(rt, instance).state;
      Wf(s.guest) && HostOwned(s)
    ensures var r := CaptureEventDefaults(rt, instance, event, distinctId, apiKey, codec, reply);
      && r.state.hostData == Some(h) && h.len == |Encode(DefaultHost)|
      && NodeHost.WasmToString(r.state.guest.mem, h.ptr, h.len) == "http://localhost:8000"
  {
    var a := EventArgs(event, distinctId, apiKey, "{}");
    h := CaptureEventKeepsHost(rt, instance, a, DefaultHost, codec, reply);
    var r := CaptureEvent(rt, instance, a, DefaultHost, codec, reply);
    TextReads(r.state.guest.mem, h, DefaultHost);
  }

  /** A buffer holding the encoding of a text that does not start with
      U+FEFF reads back as that text. */
  lemma TextReads(mem: Memory, h: Buf, text: string)
    requires |text| > 0 && text[0] != Bom
    requires Load(mem, h.ptr, h.len) == Ok(Encode(text))
    ensures NodeHost.WasmToString(mem, h.ptr, h.len) == text
  {
    assert InBounds(mem, h.ptr, h.len) && mem[h.ptr..h.ptr + h.len] == Encode(text);
    NodeHost.WasmToStringInBounds(mem, h.ptr, h.len);
    DecodeBomEncode(text);
    DecodeLossyBomStrips(Encode(text));
  }

  /** Lines 189-222, once the five strings are written: swap the host
      buffers, then `capture`, read the result and release. A host buffer is
      recorded afterwards whether or not the swap succeeds. */
  function SwapAndCapture(s: State, c: CaptureArgs, h: Buf, codec: Codec, reply: Reply): (r: Step<string>)
    ensures r.state.hostData.Some?
    ensures Grows(s.guest, r.state.guest) && (Wf(s.guest) ==> Wf(r.state.guest))
  {
    match SwapHost(s, h)
    case Fail(s2, e) => Fail(s2, e)
    case Done(s2, _) =>
      GrowsTransitive(s.guest, s2.guest, CaptureAndFinish(s2, c, codec, reply).state.guest);
      CaptureAndFinish(s2, c, codec, reply)
  }

  /** Lines 196-222: `capture`, then read the result and release. */
  function CaptureAndFinish(s2: State, c: CaptureArgs, codec: Codec, reply: Reply): (r: Step<string>)
    ensures r.state.hostData == s2.hostData
    ensures Grows(s2.guest, r.state.guest)
    ensures Wf(s2.guest) ==> Wf(r.state.guest)
  {
    match Capture(Node, s2, c, codec, reply)
    case Fail(s3, e) => Fail(s3, e)
    case Done(s3, respPtr) =>
      GrowsTransitive(s2.guest, s3.guest, FinishCapture(s3, c, respPtr).state.guest);
      FinishCapture(s3, c, respPtr)
  }

  /** The recorded host buffer, if there is one, is an allocation the host
      still owns. */
  predicate HostOwned(s: State)
  {
    s.hostData.Some? ==> Holds(s.guest, s.hostData.value)
  }

  /** The heap with the recorded host buffer, if any, released. */
  function WithoutHost(s: State): Guest
  {
    match s.hostData
    case None => s.guest
    case Some(b) => Without(s.guest, b)
  }

  lemma FiveBuffers(bufs: seq<Buf>)
    requires |bufs| == 5
    ensures bufs == ArgumentBuffers(CaptureArgs(bufs[0], bufs[1], bufs[2], bufs[3])) + [bufs[4]]
  {
  }

  lemma ShuffleNode(e: Buf, d: Buf, k: Buf, p: Buf, h: Buf, resp: Buf, out: Buf)
    ensures multiset([e, d, k, p] + [h] + [resp, out]) == multiset([e, d, k, p] + [out] + [h, resp])
  {
  }

  /** The five strings `captureEvent` writes, in order, and the state just
      before `capture` runs: the old host buffer released, the new one recorded
      and reading back as the host. */
  lemma CaptureEventPrepares(s: State, a: EventArgs, host: string)
    returns (g1: Guest, c: CaptureArgs, h: Buf, s2: State)
    requires Wf(s.guest) && HostOwned(s)
    ensures WriteArguments(s.guest, a, host) == Ok((g1, c, h))
    ensures SwapHost(s.(guest := g1), h) == Done(s2, ())
    ensures Wf(s2.guest) && Grows(s.guest, s2.guest)
    ensures DataIntact(s.guest.mem) ==> DataIntact(s2.guest.mem)
    ensures s.hostData.Some? && s.hostData.value.len > 0 ==> s.hostData.value.ptr !in s2.guest.live
    ensures s2.hostData == Some(h) && Holds(s2.guest, h) && h.len == |Encode(host)|
    ensures Load(s2.guest.mem, h.ptr, h.len) == Ok(Encode(host))
    ensures s2.latestLen == s.latestLen && s2.sent == s.sent
    ensures ReadArgs(s2.guest.mem, c) == Ok(a)
    ensures AddsExactly(WithoutHost(s), s2.guest, ArgumentBuffers(c) + [h])
  {
    var texts := [a.event, a.distinctId, a.apiKey, a.properties, host];
    var w := WriteArguments(s.guest, a, host).value;
    g1, c, h := w.0, w.1, w.2;
    var bufs := ArgumentBuffers(c) + [h];
    assert WriteAll(s.guest, texts) == Ok((g1, bufs));
    assert Load(g1.mem, c.event.ptr, c.event.len) == Ok(Encode(a.event));
    assert Load(g1.mem, c.distinctId.ptr, c.distinctId.len) == Ok(Encode(a.distinctId));
    assert Load(g1.mem, c.apiKey.ptr, c.apiKey.len) == Ok(Encode(a.apiKey));
    assert Load(g1.mem, c.properties.ptr, c.properties.len) == Ok(Encode(a.properties));
    assert Load(g1.mem, h.ptr, h.len) == Ok(Encode(host));
    ReadsBack(g1.mem, c, a);
    if DataIntact(s.guest.mem) {
      DataStaysIntact(s.guest, g1);
    }
    assert h in bufs;
    s2 := SwapHost(s.(guest := g1), h).state;
    match s.hostData {
      case None =>
        assert AddsExactly(WithoutHost(s), s2.guest, bufs);
      case Some(prev) =>
        AddsAfterRelease(s.guest, g1, s2.guest, bufs, prev);
        GrowsTransitive(s.guest, g1, s2.guest);
    }
  }

  /** Whatever the reply, and whether `capture` succeeds or fails, once the
      host buffers are swapped (lines 189-193) `captureEvent` leaves the new
      host buffer recorded, still owned and reading back as the host, and the
      previous one released, so that its block is not live afterwards: the
      host keeps at most one host buffer across calls. */
  lemma CaptureEventKeepsHost(rt: Runtime, instance: Guest, a: EventArgs, host: string, codec: Codec, reply: Reply)
    returns (h: Buf)
    requires var s := InitWasm(rt, instance).state;
      Wf(s.guest) && HostOwned(s)
    ensures var s := InitWasm(rt, instance).state;
      var r := CaptureEvent(rt, instance, a, host, codec, reply);
      && r.state.hostData == Some(h) && HostOwned(r.state)
      && h.len == |Encode(host)| && Load(r.state.guest.mem, h.ptr, h.len) == Ok(Encode(host))
      && (s.hostData.Some? && s.hostData.value.len > 0 ==> s.hostData.value.ptr !in r.state.guest.live)
      && Wf(r.state.guest) && Grows(s.guest, r.state.guest)
  {
    var s := InitWasm(rt, instance).state;
    var g1, c, s2;
    g1, c, h, s2 := CaptureEventPrepares(s, a, host);
    var r := CaptureAndFinish(s2, c, codec, reply);
    assert CaptureEvent(rt, instance, a, host, codec, reply) == r;
    if h.len > 0 {
      HeldApartLast(s2.guest, ArgumentBuffers(c), h);
    }
    CaptureAndFinishKeepsHost(s2, c, h, codec, reply);
    GrowsTransitive(s.guest, s2.guest, r.state.guest);
    if s.hostData.Some? && s.hostData.value.len > 0 {
      var prev := s.hostData.value;
      assert prev.ptr < s2.guest.brk by {
        assert prev.ptr in s.guest.live;
      }
    }
  }

  /** `capture` and the release after it leave a held host buffer, not named
      among the arguments, held and unchanged: the response block `capture`
      returns is fresh, so it is not the host buffer either. */
  lemma CaptureAndFinishKeepsHost(s2: State, c: CaptureArgs, h: Buf, codec: Codec, reply: Reply)
    requires Wf(s2.guest) && Holds(s2.guest, h)
    requires h.len > 0 ==> !Names(ArgumentBuffers(c), h.ptr)
    ensures var r := CaptureAndFinish(s2, c, codec, reply);
      Holds(r.state.guest, h) && Load(r.state.guest.mem, h.ptr, h.len) == Load(s2.guest.mem, h.ptr, h.len)
  {
    var r := CaptureAndFinish(s2, c, codec, reply);
    HeldBytesSurvive(s2.guest, r.state.guest, h);
    match Capture(Node, s2, c, codec, reply)
    case Fail(s3, e) =>
    case Done(s3, respPtr) =>
      if h.len > 0 {
        var resp := Buf(respPtr, s3.latestLen);
        assert !Names([resp], h.ptr);
        NamesAppend(ArgumentBuffers(c), [resp]);
        assert h.ptr in s3.guest.live;
      }
  }

  /** `captureEvent` up to the return of `capture`: the state `capture` leaves,
      the response it returns and every buffer it has added. */
  lemma CaptureEventCompletes(s: State, a: EventArgs, host: string, codec: Codec, reply: Reply)
    returns (c: CaptureArgs, h: Buf, s3: State, resp: Buf, out: Buf)
    requires Wf(s.guest) && DataIntact(s.guest.mem) && HostOwned(s)
    requires Lawful(codec) && codec.parse(StripBom(a.properties)).Some?
    requires reply.Answered? && IsSuccess(reply.status) && codec.parse(DecodeLossyBom(reply.body)).Some?
    ensures WriteArguments(s.guest, a, host).Ok?
    ensures var w := WriteArguments(s.guest, a, host).value;
      && w.1 == c && w.2 == h
      && SwapHost(s.(guest := w.0), h).Done?
      && Capture(Node, SwapHost(s.(guest := w.0), h).state, c, codec, reply) == Done(s3, out.ptr)
    ensures Wf(s3.guest) && s3.hostData == Some(h) && out.len == s3.latestLen
    ensures Load(s3.guest.mem, h.ptr, h.len) == Ok(Encode(host))
    ensures Load(s3.guest.mem, out.ptr, out.len) ==
      Ok(Encode(codec.serialize(codec.parse(DecodeLossyBom(reply.body)).value)))
    ensures AddsExactly(WithoutHost(s), s3.guest, ArgumentBuffers(c) + [h] + [resp, out])
  {
    var g1, s2;
    g1, c, h, s2 := CaptureEventPrepares(s, a, host);
    s3, resp, out := CaptureSends(s2, a, c, h, codec, reply);
    assert AddsExactly(WithoutHost(s), s3.guest, ArgumentBuffers(c) + [h] + [resp, out]) by {
      AddsCompose(WithoutHost(s), s2.guest, s3.guest, ArgumentBuffers(c) + [h], [resp, out]);
    }
  }

  /** `capture` on the Node host, once the arguments and the host are written:
      it sends the event and returns the response, adding only the response
      blocks and leaving the host buffer as it was. */
  lemma CaptureSends(s2: State, a: EventArgs, c: CaptureArgs, h: Buf, codec: Codec, reply: Reply)
    returns (s3: State, resp: Buf, out: Buf)
    requires Wf(s2.guest) && DataIntact(s2.guest.mem) && ReadArgs(s2.guest.mem, c) == Ok(a)
    requires s2.hostData == Some(h) && Holds(s2.guest, h)
    requires Lawful(codec) && codec.parse(StripBom(a.properties)).Some?
    requires reply.Answered? && IsSuccess(reply.status) && codec.parse(DecodeLossyBom(reply.body)).Some?
    ensures Capture(Node, s2, c, codec, reply) == Done(s3, out.ptr)
    ensures Wf(s3.guest) && s3.hostData == Some(h) && out.len == s3.latestLen
    ensures Load(s3.guest.mem, h.ptr, h.len) == Load(s2.guest.mem, h.ptr, h.len)
    ensures Load(s3.guest.mem, out.ptr, out.len) ==
      Ok(Encode(codec.serialize(codec.parse(DecodeLossyBom(reply.body)).value)))
    ensures AddsExactly(s2.guest, s3.guest, [resp, out])
  {
    assert Capture(Node, s2, c, codec, reply) == SendEvent(Node, s2, a, codec, reply) by {
      LogsProperties(Node, s2.guest.mem, c, codec);
    }
    assert SendEvent(Node, s2, a, codec, reply).Done? by {
      HeldIsBelow(s2.guest, h);
      SendEventSucceeds(Node, s2, a, codec, reply);
    }
    resp, out := SendEventDelivers(Node, s2, a, codec, reply);
    s3 := SendEvent(Node, s2, a, codec, reply).state;
    HeldBytesSurvive(s2.guest, s3.guest, h);
  }

  /** For a success reply that is JSON and properties text that is JSON,
      `captureEvent` returns the host's re-serialisation of the reply. The old
      host buffer is released, the new one is recorded, still owned and reads
      back as the host, and apart from it the heap keeps only the host's
      response block, which the guest never frees: at most one host buffer
      stays live across calls. */
  lemma CaptureEventDelivers(rt: Runtime, instance: Guest, a: EventArgs, host: string, codec: Codec, reply: Reply)
    returns (h: Buf, resp: Buf)
    requires var s := InitWasm(rt, instance).state;
      Wf(s.guest) && DataIntact(s.guest.mem) && HostOwned(s)
    requires Lawful(codec) && codec.parse(StripBom(a.properties)).Some?
    requires reply.Answered? && IsSuccess(reply.status) && codec.parse(DecodeLossyBom(reply.body)).Some?
    ensures var s := InitWasm(rt, instance).state;
      var r := CaptureEvent(rt, instance, a, host, codec, reply);
      && r.Done?
      && r.value == codec.serialize(codec.parse(DecodeLossyBom(reply.body)).value)
      && r.state.hostData == Some(h) && HostOwned(r.state)
      && NodeHost.WasmToString(r.state.guest.mem, h.ptr, h.len) == StripBom(host)
      && AddsExactly(WithoutHost(s), r.state.guest, [h, resp])
  {
    var s := InitWasm(rt, instance).state;
    var c, s3, out;
    c, h, s3, resp, out := CaptureEventCompletes(s, a, host, codec, reply);
    var v := codec.parse(DecodeLossyBom(reply.body)).value;
    assert codec.serialize(v)[0] != Bom;
    DecodeEncode(codec.serialize(v));
    DecodeEncode(host);
    ShuffleNode(c.event, c.distinctId, c.apiKey, c.properties, h, resp, out);
    ReleaseAdded(WithoutHost(s), s3, ArgumentBuffers(c) + [h] + [resp, out], ArgumentBuffers(c) + [out], [h, resp]);
    var s4 := ReleaseAll(s3, ArgumentBuffers(c) + [out]).state;
    assert Holds(s4.guest, h) by {
      assert h in [h, resp];
    }
  }
}

/** The .NET host's `CaptureAsync` (dotnet/WasmClient.cs lines 96-130): write
    the four arguments into the guest, call `capture`, read the result back
    with the recorded response length, release buffers.

    `baseAddress` is the `BaseAddress` of the `HttpClient` that `http_request`
    creates. The one line 32 creates has none (`None`), so the relative
    `/capture` the guest posts to is never sent: `CaptureAsyncRefused`. The
    other lemmas describe the call as it would go with a base address.

    The properties text is taken as given: it is what
    `JsonSerializerHelper.SerializeToCamelCaseJsonStringAsync` made of the
    caller's dictionary.
 */
module DotnetClient {
  import opened Outcomes
  import opened Utf8
  import opened Json
  import opened LinearMemory
  import opened GuestHeap
  import opened Http
  import opened Bridge
  import opened GuestExports
  import DotnetHost

  /** Lines 102-106: `WriteString` for each argument, in order. */
  function MarshalArguments(g: Guest, a: EventArgs): (r: Result<(Guest, CaptureArgs)>)
    ensures Wf(g) ==> r.Ok? && Wf(r.value.0) && Grows(g, r.value.0)
  {
    match WriteAll(g, [a.event, a.distinctId, a.apiKey, a.properties])
    case Err(e) => Err(e)
    case Ok((g', bufs)) => Ok((g', CaptureArgs(bufs[0], bufs[1], bufs[2], bufs[3])))
  }

  /** The four strings arrive in the guest as written: `capture` decodes each
      back to itself, and the heap gained exactly the four argument blocks,
      each of its string's UTF-8 length. */
  lemma MarshalRoundTrip(g: Guest, a: EventArgs)
    requires Wf(g)
    ensures var (g', c) := MarshalArguments(g, a).value;
      && ReadArgs(g'.mem, c) == Ok(a)
      && AddsExactly(g, g', ArgumentBuffers(c))
      && c.event.len == |Encode(a.event)| && c.distinctId.len == |Encode(a.distinctId)|
      && c.apiKey.len == |Encode(a.apiKey)| && c.properties.len == |Encode(a.properties)|
      && Load(g'.mem, c.properties.ptr, c.properties.len) == Ok(Encode(a.properties))
  {
    var texts := [a.event, a.distinctId, a.apiKey, a.properties];
    var (g', bufs) := WriteAll(g, texts).value;
    var c := CaptureArgs(bufs[0], bufs[1], bufs[2], bufs[3]);
    FourBuffers(bufs);
    assert Load(g'.mem, c.event.ptr, c.event.len) == Ok(Encode(a.event)) && Load(g'.mem, c.distinctId.ptr, c.distinctId.len) == Ok(Encode(a.distinctId));
    assert Load(g'.mem, c.apiKey.ptr, c.apiKey.len) == Ok(Encode(a.apiKey)) && Load(g'.mem, c.properties.ptr, c.properties.len) == Ok(Encode(a.properties));
    ReadsBack(g'.mem, c, a);
  }

  lemma FourBuffers(bufs: seq<Buf>)
    requires |bufs| == 4
    ensures ArgumentBuffers(CaptureArgs(bufs[0], bufs[1], bufs[2], bufs[3])) == bufs
  {
  }

  /** Line 122: the length used for the result when none was recorded. */
  const FallbackLength: nat := 2048

  /** Lines 121-122: the recorded response length, or the fallback when it is 0. */
  function ResultLength(latestLen: nat): nat
  {
    if latestLen == 0 then FallbackLength else latestLen
  }

  /** Lines 124-128 with the length and the buffers as parameters: read the
      result string at `resultPtr` with `len` bytes, then `_dealloc` each of
      `bufs` and finally the result block with `len`. */
  function CollectResult(s: State, resultPtr: int, len: nat, bufs: seq<Buf>): (r: Step<string>)
    ensures Grows(s.guest, r.state.guest) && (Wf(s.guest) ==> Wf(r.state.guest))
    ensures !InBounds(s.guest.mem, resultPtr, len) ==> r == Fail(s, OutOfBounds(resultPtr, len, |s.guest.mem|))
    ensures InBounds(s.guest.mem, resultPtr, len) ==>
      var rel := ReleaseAll(s, bufs + [Buf(resultPtr, len)]);
      && r.state == rel.state
      && (rel.Done? ==> r == Done(rel.state, DecodeLossy(s.guest.mem[resultPtr..resultPtr + len])))
      && (rel.Fail? ==> r == Fail(rel.state, rel.error))
  {
    match DotnetHost.ReadString(s.guest.mem, resultPtr, len)
    case Err(e) => Fail(s, e)
    case Ok(text) =>
      match ReleaseAll(s, bufs + [Buf(resultPtr, len)])
      case Fail(s', e) => Fail(s', e)
      case Done(s', _) => Done(s', text)
  }

  /** `CaptureAsync` as written (lines 96-130): marshal the four arguments,
      call `capture`, read the result with the recorded length (2048 when it is
      0), release the event, distinct id and api key buffers and the result.
      The properties buffer is not released. The heap only grows: no block
      below the break appears, nothing written there changes. */
  function CaptureAsync(s: State, baseAddress: Option<string>, a: EventArgs, codec: Codec, reply: Reply): (r: Step<string>)
    ensures Wf(s.guest) ==> Wf(r.state.guest) && Grows(s.guest, r.state.guest)
    ensures r.state.hostData == s.hostData
  {
    match MarshalArguments(s.guest, a)
    case Err(e) => Fail(s, e)
    case Ok((g1, c)) =>
      match Capture(Dotnet(baseAddress), s.(guest := g1), c, codec, reply)
      case Fail(s2, e) =>
        assert Wf(s.guest) ==> Grows(s.guest, s2.guest) by {
          if Wf(s.guest) { GrowsTransitive(s.guest, g1, s2.guest); }
        }
        Fail(s2, e)
      case Done(s2, resultPtr) =>
        var r := CollectResult(s2, resultPtr, ResultLength(s2.latestLen), [c.event, c.distinctId, c.apiKey]);
        assert Wf(s.guest) ==> Grows(s.guest, r.state.guest) by {
          if Wf(s.guest) {
            GrowsTransitive(s.guest, g1, s2.guest);
            GrowsTransitive(s.guest, s2.guest, r.state.guest);
          }
        }
        r
  }

  /** `CaptureAsync` as its comments intend it: the result is read and
      released with exactly the recorded length, and all four argument buffers
      are released. The heap only grows. */
  function CaptureAsyncScoped(s: State, baseAddress: Option<string>, a: EventArgs, codec: Codec, reply: Reply): (r: Step<string>)
    ensures Wf(s.guest) ==> Wf(r.state.guest) && Grows(s.guest, r.state.guest)
    ensures r.state.hostData == s.hostData
  {
    match MarshalArguments(s.guest, a)
    case Err(e) => Fail(s, e)
    case Ok((g1, c)) =>
      match Capture(Dotnet(baseAddress), s.(guest := g1), c, codec, reply)
      case Fail(s2, e) =>
        assert Wf(s.guest) ==> Grows(s.guest, s2.guest) by {
          if Wf(s.guest) { GrowsTransitive(s.guest, g1, s2.guest); }
        }
        Fail(s2, e)
      case Done(s2, resultPtr) =>
        var r := CollectResult(s2, resultPtr, s2.latestLen, ArgumentBuffers(c));
        assert Wf(s.guest) ==> Grows(s.guest, r.state.guest) by {
          if Wf(s.guest) {
            GrowsTransitive(s.guest, g1, s2.guest);
            GrowsTransitive(s.guest, s2.guest, r.state.guest);
          }
        }
        r
  }

  /** `CaptureAsync` as written never posts: its `HttpClient` has no base
      address, so for every reply the call fails with `NoBaseAddress` on
      `/capture` and the transport sees no request. The same holds for the
      scoped variant. */
  lemma CaptureAsyncRefused(s: State, a: EventArgs, codec: Codec, reply: Reply)
    requires Wf(s.guest) && DataIntact(s.guest.mem) && Lawful(codec)
    ensures var r := CaptureAsync(s, None, a, codec, reply);
      r.Fail? && r.error == NoBaseAddress(CapturePath) && r.state.sent == s.sent
    ensures var r := CaptureAsyncScoped(s, None, a, codec, reply);
      r.Fail? && r.error == NoBaseAddress(CapturePath) && r.state.sent == s.sent
  {
    var (g1, c) := MarshalArguments(s.guest, a).value;
    MarshalRoundTrip(s.guest, a);
    var s1 := s.(guest := g1);
    DataStaysIntact(s.guest, g1);
    CaptureSendsArguments(None, s1, c, a, codec, reply);
    SendEventPostsPayload(Dotnet(None), s1, a, codec, reply);
  }

  /** What every `capture` call with a success reply leaves behind: the four
      argument blocks, the host's response block and the guest's copy, which
      holds the bytes the host wrote. */
  lemma CaptureCompletes(s: State, base: string, a: EventArgs, codec: Codec, reply: Reply)
    returns (c: CaptureArgs, s2: State, resp: Buf, out: Buf)
    requires Wf(s.guest) && DataIntact(s.guest.mem) && Lawful(codec)
    requires reply.Answered? && IsSuccess(reply.status)
    ensures MarshalArguments(s.guest, a).Ok? && MarshalArguments(s.guest, a).value.1 == c
    ensures Capture(Dotnet(Some(base)), s.(guest := MarshalArguments(s.guest, a).value.0), c, codec, reply) == Done(s2, out.ptr)
    ensures Wf(s2.guest)
    ensures out.len == s2.latestLen == resp.len == |DotnetHost.ResponseBytes(reply.body)|
    ensures Load(s2.guest.mem, out.ptr, out.len) == Ok(DotnetHost.ResponseBytes(reply.body))
    ensures AddsExactly(s.guest, s2.guest, ArgumentBuffers(c) + [resp, out])
  {
    var m := MarshalArguments(s.guest, a).value;
    var g1 := m.0;
    c := m.1;
    MarshalRoundTrip(s.guest, a);
    var s1 := s.(guest := g1);
    DataStaysIntact(s.guest, g1);
    CaptureSendsArguments(Some(base), s1, c, a, codec, reply);
    SendEventSucceeds(Dotnet(Some(base)), s1, a, codec, reply);
    resp, out := SendEventDelivers(Dotnet(Some(base)), s1, a, codec, reply);
    s2 := SendEvent(Dotnet(Some(base)), s1, a, codec, reply).state;
    AddsCompose(s.guest, g1, s2.guest, ArgumentBuffers(c), [resp, out]);
  }

  /** Arguments the host wrote are logged without error, so `capture` goes
      on to `send_event` with them. */
  lemma CaptureSendsArguments(baseAddress: Option<string>, s1: State, c: CaptureArgs, a: EventArgs, codec: Codec, reply: Reply)
    requires ReadArgs(s1.guest.mem, c) == Ok(a)
    requires Load(s1.guest.mem, c.properties.ptr, c.properties.len) == Ok(Encode(a.properties))
    ensures Capture(Dotnet(baseAddress), s1, c, codec, reply) == SendEvent(Dotnet(baseAddress), s1, a, codec, reply)
  {
    LogsEncodedText(Dotnet(baseAddress), s1.guest.mem, c.properties, a.properties, codec);
  }

  /** The text `CaptureAsync` returns for a success reply: the reply body as
      `ReadAsStringAsync` decodes it, whatever the guest did in between. */
  lemma ResultText(body: seq<uint8>, mem: Memory, ptr: int)
    requires Load(mem, ptr, |DotnetHost.ResponseBytes(body)|) == Ok(DotnetHost.ResponseBytes(body))
    ensures DotnetHost.ReadString(mem, ptr, |DotnetHost.ResponseBytes(body)|) == Ok(DecodeLossyBom(body))
  {
    DecodeEncode(DecodeLossyBom(body));
  }

  lemma ShuffleAsWritten(e: Buf, d: Buf, k: Buf, p: Buf, resp: Buf, out: Buf)
    ensures multiset([e, d, k, p] + [resp, out]) == multiset([e, d, k] + [out] + [resp, p])
  {
  }

  lemma ShuffleScoped(e: Buf, d: Buf, k: Buf, p: Buf, resp: Buf, out: Buf)
    ensures multiset([e, d, k, p] + [resp, out]) == multiset([e, d, k, p] + [out] + [resp])
  {
  }

  /** For a success reply with a non-empty body, `CaptureAsync` returns the
      body's text, and the heap keeps two blocks it did not have: the host's
      response block, which the guest never frees, and the properties buffer,
      which `CaptureAsync` never frees. */
  lemma CaptureAsyncDelivers(s: State, base: string, a: EventArgs, codec: Codec, reply: Reply) returns (c: CaptureArgs, resp: Buf)
    requires Wf(s.guest) && DataIntact(s.guest.mem) && Lawful(codec)
    requires reply.Answered? && IsSuccess(reply.status) && |DotnetHost.ResponseBytes(reply.body)| > 0
    ensures var r := CaptureAsync(s, Some(base), a, codec, reply);
      && r.Done? && r.value == DecodeLossyBom(reply.body)
      && c == MarshalArguments(s.guest, a).value.1
      && resp.len == |DotnetHost.ResponseBytes(reply.body)|
      && AddsExactly(s.guest, r.state.guest, [resp, c.properties])
  {
    var s2, out;
    c, s2, resp, out := CaptureCompletes(s, base, a, codec, reply);
    var n := out.len;
    ResultText(reply.body, s2.guest.mem, out.ptr);
    ShuffleAsWritten(c.event, c.distinctId, c.apiKey, c.properties, resp, out);
    ReleaseAdded(s.guest, s2, ArgumentBuffers(c) + [resp, out], [c.event, c.distinctId, c.apiKey] + [out], [resp, c.properties]);
    assert Buf(out.ptr, ResultLength(n)) == out;
  }

  /** A success reply with an empty body (204 No Content, say) makes
      `CaptureAsync` read 2048 bytes at the dangling pointer the guest returns
      for an empty result, and then hand that pointer and 2048 to
      `dealloc_buffer`, which owns no such block: the call fails instead of
      returning the empty text. */
  lemma CaptureAsyncEmptyReply(s: State, base: string, a: EventArgs, codec: Codec, status: int)
    requires Wf(s.guest) && DataIntact(s.guest.mem) && Lawful(codec) && IsSuccess(status)
    ensures var r := CaptureAsync(s, Some(base), a, codec, Answered(status, []));
      && r.Fail?
      && (r.error == BadRelease(Dangling, FallbackLength) ||
          r.error == OutOfBounds(Dangling, FallbackLength, |r.state.guest.mem|))
  {
    var reply := Answered(status, []);
    var c, s2, resp, out := CaptureCompletes(s, base, a, codec, reply);
    assert DotnetHost.ResponseBytes([]) == [];
    assert out.ptr == Dangling by {
      assert out in ArgumentBuffers(c) + [resp, out];
    }
    if InBounds(s2.guest.mem, Dangling, FallbackLength) {
      var args := [c.event, c.distinctId, c.apiKey];
      SplitArguments(c, resp, out);
      HeldApartPrefix(s2.guest, args, [c.properties, resp, out]);
      ReleaseAllStopsAt(s2, args, Buf(Dangling, FallbackLength));
    }
  }

  /** For every success reply, including an empty one, the corrected capture
      returns the body's text, and of everything it allocated only the host's
      response block stays: the guest never frees it. */
  lemma CaptureAsyncScopedDelivers(s: State, base: string, a: EventArgs, codec: Codec, reply: Reply) returns (resp: Buf)
    requires Wf(s.guest) && DataIntact(s.guest.mem) && Lawful(codec)
    requires reply.Answered? && IsSuccess(reply.status)
    ensures var r := CaptureAsyncScoped(s, Some(base), a, codec, reply);
      && r.Done? && r.value == DecodeLossyBom(reply.body)
      && resp.len == |DotnetHost.ResponseBytes(reply.body)|
      && AddsExactly(s.guest, r.state.guest, [resp])
  {
    var c, s2, out;
    c, s2, resp, out := CaptureCompletes(s, base, a, codec, reply);
    ResultText(reply.body, s2.guest.mem, out.ptr);
    ShuffleScoped(c.event, c.distinctId, c.apiKey, c.properties, resp, out);
    ReleaseAdded(s.guest, s2, ArgumentBuffers(c) + [resp, out], ArgumentBuffers(c) + [out], [resp]);
  }

  lemma SplitArguments(c: CaptureArgs, resp: Buf, out: Buf)
    ensures ArgumentBuffers(c) + [resp, out] == [c.event, c.distinctId, c.apiKey] + [c.properties, resp, out]
  {
  }
}

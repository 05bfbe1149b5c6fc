/** The Node host's side of the boundary (node-ts/src/wasm.ts): `stringToWasm`,
    `wasmToString`, and the `http_request` import. `http_request_len` is
    `Bridge.HttpRequestLen`.

    Unlike the .NET host, every read goes through `Uint8Array.prototype.slice`,
    which clamps to the end of memory instead of failing.
 */
module NodeHost {
  import opened Outcomes
  import opened Utf8
  import opened Json
  import opened LinearMemory
  import opened GuestHeap
  import opened Http
  import opened Bridge
  import DotnetHost

  /** `wasmToString(ptr, len)`: never fails; `TextDecoder` decodes whatever
      part of `ptr..ptr + len` lies in memory, less a leading byte-order mark. */
  function WasmToString(mem: Memory, ptr: int, len: int): (r: string)
    ensures InBounds(mem, ptr, len) ==> r == StripBom(DecodeLossy(mem[ptr..ptr + len]))
    ensures 0 <= ptr <= |mem| && 0 <= len && ptr + len > |mem| ==> r == StripBom(DecodeLossy(mem[ptr..]))
  {
    assert 0 <= ptr <= |mem| ==> mem[ptr..|mem|] == mem[ptr..];
    DecodeLossyBomStrips(Slice(mem, ptr, ptr + len));
    DecodeLossyBom(Slice(mem, ptr, ptr + len))
  }

  /** In bounds, `wasmToString` decodes exactly the range asked for. */
  lemma WasmToStringInBounds(mem: Memory, ptr: int, len: int)
    requires InBounds(mem, ptr, len)
    ensures WasmToString(mem, ptr, len) == StripBom(DecodeLossy(mem[ptr..ptr + len]))
  {
  }

  /** `stringToWasm(str)`: allocate exactly the UTF-8 length, copy the bytes
      there, return `{ ptr, len }`. */
  function StringToWasm(g: Guest, s: string): (r: Result<(Guest, Buf)>)
    ensures Wf(g) ==> r.Ok? && Wf(r.value.0)
    ensures r.Ok? ==> r.value.1.len == |Encode(s)|
    ensures r.Ok? ==> r.value.0.live == if |Encode(s)| == 0 then g.live else g.live[r.value.1.ptr := |Encode(s)|]
    ensures r.Ok? ==> Load(r.value.0.mem, r.value.1.ptr, r.value.1.len) == Ok(Encode(s))
    ensures r.Ok? ==> WasmToString(r.value.0.mem, r.value.1.ptr, r.value.1.len) == StripBom(s)
    ensures r.Ok? && Wf(g) && |Encode(s)| > 0 ==> r.value.1.ptr !in g.live
    ensures r.Ok? ==> Holds(r.value.0, r.value.1)
    ensures r.Ok? ==> Grows(g, r.value.0)
  {
    var bytes := Encode(s);
    match AllocCopy(g, bytes)
    case Err(e) => Err(e)
    case Ok((g', ptr)) =>
      assert WasmToString(g'.mem, ptr, |bytes|) == StripBom(s) by { DecodeEncode(s); }
      Ok((g', Buf(ptr, |bytes|)))
  }

  const JsonHeaders: seq<Header> := [Header("Content-Type", "application/json"), Header("Accept", "application/json")]

  /** The body rule of `http_request` (node-ts/src/wasm.ts lines 76-94) for an
      already normalised method. The body bytes are a clamping slice, and the
      host logs them through `JSON.parse`, which throws when they are not JSON. */
  function AttachBody(mem: Memory, verb: string, target: Target, body: Buf, codec: Codec): (r: Result<Request>)
    ensures r.Ok? ==> r.value.verb == verb && r.value.target == target && r.value.headers == JsonHeaders
    ensures r.Ok? && body.len > 0 ==> r.value.body == Some(Slice(mem, body.ptr, body.ptr + body.len))
    ensures r.Ok? && body.len > 0 && InBounds(mem, body.ptr, body.len) ==>
      r.value.body == Some(mem[body.ptr..body.ptr + body.len])
    ensures body.len <= 0 && CarriesBody(verb) ==> r == Ok(Request(verb, target, JsonHeaders, Some(EmptyObjectBody)))
    ensures body.len <= 0 && !CarriesBody(verb) ==> r == Ok(Request(verb, target, JsonHeaders, None))
    ensures r.Err? <==> body.len > 0 && codec.parse(WasmToString(mem, body.ptr, body.len)).None?
    ensures r.Err? ==> r.error == MalformedJson
  {
    match ChooseBody(verb, body.len)
    case GuestBytes =>
      var bytes := Slice(mem, body.ptr, body.ptr + body.len);
      if codec.parse(WasmToString(mem, body.ptr, body.len)).None? then Err(MalformedJson)
      else Ok(Request(verb, target, JsonHeaders, Some(bytes)))
    case EmptyObject => Ok(Request(verb, target, JsonHeaders, Some(EmptyObjectBody)))
    case NoBody => Ok(Request(verb, target, JsonHeaders, None))
  }

  /** What `fetch` (node-ts/src/wasm.ts line 97) rejects with a TypeError
      before any I/O, as the Fetch standard's `Request` constructor does: a
      method that is not a token or is forbidden, then a body on GET or HEAD. */
  function FetchCheck(req: Request): (r: Result<Request>)
    ensures r.Ok? ==> r.value == req
    ensures r.Ok? ==> IsToken(req.verb) && !IsForbiddenMethod(req.verb)
    ensures r.Ok? && (req.verb == "GET" || req.verb == "HEAD") ==> req.body.None?
    ensures r.Err? && IsToken(req.verb) && !IsForbiddenMethod(req.verb) ==> r.error == BodyNotAllowed(req.verb)
    ensures r.Err? && !(IsToken(req.verb) && !IsForbiddenMethod(req.verb)) ==> r.error == InvalidMethod(req.verb)
  {
    if !IsToken(req.verb) || IsForbiddenMethod(req.verb) then Err(InvalidMethod(req.verb))
    else if req.body.Some? && (req.verb == "GET" || req.verb == "HEAD") then Err(BodyNotAllowed(req.verb))
    else Ok(req)
  }

  /** The part of `http_request` before any byte goes out (node-ts/src/wasm.ts
      lines 53-97): read path and method (never failing), insist on a recorded
      host, resolve the path against it, attach the body, and pass `fetch`'s
      own checks. */
  function PrepareRequest(s: State, a: HttpArgs, codec: Codec): (r: Result<Request>)
    ensures s.hostData.None? ==> r == Err(HostNotSet)
    ensures s.hostData.Some? ==>
      var mem := s.guest.mem;
      var verb := NodeMethod(WasmToString(mem, a.verb.ptr, a.verb.len));
      var target := Relative(WasmToString(mem, a.url.ptr, a.url.len),
                             WasmToString(mem, s.hostData.value.ptr, s.hostData.value.len));
      && (AttachBody(mem, verb, target, a.body, codec).Err? ==> r == AttachBody(mem, verb, target, a.body, codec))
      && (AttachBody(mem, verb, target, a.body, codec).Ok? ==> r == FetchCheck(AttachBody(mem, verb, target, a.body, codec).value))
  {
    var mem := s.guest.mem;
    var path := WasmToString(mem, a.url.ptr, a.url.len);
    var verb := NodeMethod(WasmToString(mem, a.verb.ptr, a.verb.len));
    match s.hostData
    case None => Err(HostNotSet)
    case Some(host) =>
      var req :- AttachBody(mem, verb, Relative(path, WasmToString(mem, host.ptr, host.len)), a.body, codec);
      FetchCheck(req)
  }

  /** The part of `http_request` from `fetch` on (node-ts/src/wasm.ts lines
      97-122): check `ok`, parse the reply as JSON, re-serialise it, hand the
      bytes to the guest and record their length. */
  function Respond(s: State, req: Request, reply: Reply, codec: Codec): (r: Step<int>)
    ensures r.state.sent == s.sent + [req]
    ensures r.state.hostData == s.hostData
    ensures reply.NoAnswer? ==> r == Fail(s.(sent := s.sent + [req]), TransportFailed)
    ensures reply.Answered? && !IsSuccess(reply.status) ==>
      r == Fail(s.(sent := s.sent + [req]), HttpStatus(reply.status))
    ensures r.Fail? && Wf(s.guest) ==> r.state.guest == s.guest && r.state.latestLen == s.latestLen
    ensures r.Done? ==>
      && reply.Answered? && IsSuccess(reply.status)
      && codec.parse(DecodeLossyBom(reply.body)).Some?
      && var bytes := Encode(codec.serialize(codec.parse(DecodeLossyBom(reply.body)).value));
      && r.state.latestLen == |bytes|
      && r.state.guest.live == (if |bytes| == 0 then s.guest.live else s.guest.live[r.value := |bytes|])
      && Load(r.state.guest.mem, r.value, |bytes|) == Ok(bytes)
    ensures r.Done? && Wf(s.guest) ==> Wf(r.state.guest)
    ensures Wf(s.guest) && reply.Answered? && IsSuccess(reply.status) && codec.parse(DecodeLossyBom(reply.body)).Some? ==>
      r.Done?
    ensures r.Done? ==> Holds(r.state.guest, Buf(r.value, r.state.latestLen))
    ensures Grows(s.guest, r.state.guest)
    ensures Wf(s.guest) ==> Keeps(s.guest, r.state.guest)
  {
    var s1 := s.(sent := s.sent + [req]);
    match reply
    case NoAnswer => Fail(s1, TransportFailed)
    case Answered(status, body) =>
      if !IsSuccess(status) then Fail(s1, HttpStatus(status))
      else match codec.parse(DecodeLossyBom(body))
        case None => Fail(s1, MalformedJson)
        case Some(json) =>
          var bytes := Encode(codec.serialize(json));
          match AllocCopy(s.guest, bytes)
          case Err(e) => Fail(s1, e)
          case Ok((g, ptr)) => Done(s1.(guest := g, latestLen := |bytes|), ptr)
  }

  /** The `http_request` import. The heap only grows and no live block is
      lost; a failed call leaves the heap and the recorded length as they
      were, and sends nothing when it fails before `fetch`; a successful one
      leaves the re-serialised reply in a fresh block whose length is the
      recorded one. */
  function HttpRequest(s: State, a: HttpArgs, codec: Codec, reply: Reply): (r: Step<int>)
    ensures Grows(s.guest, r.state.guest) && r.state.hostData == s.hostData
    ensures Wf(s.guest) ==> Wf(r.state.guest) && Keeps(s.guest, r.state.guest)
    ensures r.Fail? && Wf(s.guest) ==> r.state.guest == s.guest && r.state.latestLen == s.latestLen
    ensures PrepareRequest(s, a, codec).Err? ==> r.Fail? && r.state == s
    ensures PrepareRequest(s, a, codec).Ok? ==> r.state.sent == s.sent + [PrepareRequest(s, a, codec).value]
    ensures r.Done? ==> reply.Answered? && IsSuccess(reply.status) && codec.parse(DecodeLossyBom(reply.body)).Some?
    ensures r.Done? && reply.Answered? && codec.parse(DecodeLossyBom(reply.body)).Some? ==>
      var bytes := Encode(codec.serialize(codec.parse(DecodeLossyBom(reply.body)).value));
      && r.state.latestLen == |bytes|
      && Load(r.state.guest.mem, r.value, r.state.latestLen) == Ok(bytes)
      && Holds(r.state.guest, Buf(r.value, r.state.latestLen))
    ensures r.Done? && Wf(s.guest) && r.state.latestLen > 0 ==>
      r.value !in s.guest.live && r.state.guest.live == s.guest.live[r.value := r.state.latestLen]
    ensures Wf(s.guest) && PrepareRequest(s, a, codec).Ok? ==>
      (r.Done? <==> reply.Answered? && IsSuccess(reply.status) && codec.parse(DecodeLossyBom(reply.body)).Some?)
  {
    match PrepareRequest(s, a, codec)
    case Err(e) => Fail(s, e)
    case Ok(req) => Respond(s, req, reply, codec)
  }

  /** `http_request_len` (lines 124-126) reports exactly the size of the block
      `http_request` just filled with the re-serialised reply. */
  lemma LenMatchesResponse(s: State, a: HttpArgs, codec: Codec, reply: Reply)
    requires HttpRequest(s, a, codec, reply).Done?
    ensures reply.Answered? && codec.parse(DecodeLossyBom(reply.body)).Some?
    ensures var r := HttpRequest(s, a, codec, reply);
      Load(r.state.guest.mem, r.value, HttpRequestLen(r.state)) ==
        Ok(Encode(codec.serialize(codec.parse(DecodeLossyBom(reply.body)).value)))
  {
  }

  /** Both hosts send the same body for the same guest request when the guest's
      pointers are in bounds, the method needs no trimming or case change, and
      the body does not begin with a byte-order mark (which only the Node
      host's decoder drops before the JSON check). */
  lemma BodyRuleAgreesWithDotnet(mem: Memory, verb: string, dotnetTarget: Target, target: Target, body: Buf, codec: Codec)
    requires body.len <= 0 || InBounds(mem, body.ptr, body.len)
    ensures body.len > 0 && |BomBytes| <= body.len && mem[body.ptr..body.ptr + |BomBytes|] == BomBytes ==>
      (AttachBody(mem, verb, target, body, codec).Ok? <==>
         codec.parse(DecodeLossy(mem[body.ptr + |BomBytes|..body.ptr + body.len])).Some?)
    ensures !(body.len > 0 && |BomBytes| <= body.len && mem[body.ptr..body.ptr + |BomBytes|] == BomBytes) ==>
      (DotnetHost.AttachBody(mem, verb, dotnetTarget, body, codec).Ok? <==> AttachBody(mem, verb, target, body, codec).Ok?)
    ensures DotnetHost.AttachBody(mem, verb, dotnetTarget, body, codec).Ok? && AttachBody(mem, verb, target, body, codec).Ok? ==>
      DotnetHost.AttachBody(mem, verb, dotnetTarget, body, codec).value.body == AttachBody(mem, verb, target, body, codec).value.body
  {
    if body.len > 0 {
      var bytes := mem[body.ptr..body.ptr + body.len];
      BodyCheckOfBytes(mem, verb, target, body, codec);
      DotnetBodyCheckOfBytes(mem, verb, dotnetTarget, body, codec);
      if |BomBytes| <= body.len && mem[body.ptr..body.ptr + |BomBytes|] == BomBytes {
        assert bytes[..3] == BomBytes && bytes[3..] == mem[body.ptr + |BomBytes|..body.ptr + body.len];
      } else {
        assert !(|bytes| >= 3 && bytes[..3] == BomBytes) by {
          if |bytes| >= 3 { assert bytes[..3] == mem[body.ptr..body.ptr + 3]; }
        }
      }
    }
  }

  /** For an in-bounds body, the Node host checks the bytes with the
      mark-dropping decoder and attaches the bytes themselves. */
  lemma BodyCheckOfBytes(mem: Memory, verb: string, target: Target, body: Buf, codec: Codec)
    requires body.len > 0 && InBounds(mem, body.ptr, body.len)
    ensures var bytes := mem[body.ptr..body.ptr + body.len];
      && (AttachBody(mem, verb, target, body, codec).Ok? <==> codec.parse(DecodeLossyBom(bytes)).Some?)
      && (AttachBody(mem, verb, target, body, codec).Ok? ==>
            AttachBody(mem, verb, target, body, codec).value.body == Some(bytes))
  {
    ChecksWithoutMark(mem, verb, target, body, codec);
    AttachesInBounds(mem, verb, target, body, codec);
  }

  /** An in-bounds body passes the check exactly when its text, decoded less
      a leading mark, is JSON. */
  lemma ChecksWithoutMark(mem: Memory, verb: string, target: Target, body: Buf, codec: Codec)
    requires body.len > 0 && InBounds(mem, body.ptr, body.len)
    ensures AttachBody(mem, verb, target, body, codec).Ok? <==>
      codec.parse(DecodeLossyBom(mem[body.ptr..body.ptr + body.len])).Some?
  {
    WasmToStringDecodesRange(mem, body.ptr, body.len);
  }

  /** In bounds, `wasmToString` is the mark-dropping decoding of the range. */
  lemma WasmToStringDecodesRange(mem: Memory, ptr: int, len: int)
    requires InBounds(mem, ptr, len)
    ensures WasmToString(mem, ptr, len) == DecodeLossyBom(mem[ptr..ptr + len])
  {
    assert Slice(mem, ptr, ptr + len) == mem[ptr..ptr + len];
  }

  /** An in-bounds body that passes the check is attached as the bytes at
      that range. */
  lemma AttachesInBounds(mem: Memory, verb: string, target: Target, body: Buf, codec: Codec)
    requires body.len > 0 && InBounds(mem, body.ptr, body.len)
    ensures AttachBody(mem, verb, target, body, codec).Ok? ==>
      AttachBody(mem, verb, target, body, codec).value.body == Some(mem[body.ptr..body.ptr + body.len])
  {
  }

  /** For an in-bounds body, the .NET host checks the bytes with the plain
      decoder and attaches the bytes themselves. */
  lemma DotnetBodyCheckOfBytes(mem: Memory, verb: string, target: Target, body: Buf, codec: Codec)
    requires body.len > 0 && InBounds(mem, body.ptr, body.len)
    ensures var bytes := mem[body.ptr..body.ptr + body.len];
      && (DotnetHost.AttachBody(mem, verb, target, body, codec).Ok? <==> codec.parse(DecodeLossy(bytes)).Some?)
      && (DotnetHost.AttachBody(mem, verb, target, body, codec).Ok? ==>
            DotnetHost.AttachBody(mem, verb, target, body, codec).value.body == Some(bytes))
  {
    assert Load(mem, body.ptr, body.len) == Ok(mem[body.ptr..body.ptr + body.len]);
  }
}

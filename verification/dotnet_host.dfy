/** The .NET host's side of the boundary (dotnet/WasmClient.cs): the
    bounds-checked memory helpers, `WriteString`, and the `http_request` import.
    `http_request_len` is `Bridge.HttpRequestLen`.
 */
module DotnetHost {
  import opened Outcomes
  import opened Utf8
  import opened Json
  import opened LinearMemory
  import opened GuestHeap
  import opened Http
  import opened Bridge

  /** C#'s unchecked `(uint)` conversion, exact on the 32-bit range the source's `int`s live in. */
  function AsUInt(x: int): int
  {
    if x < 0 then x + 0x1_0000_0000 else x
  }

  /** `Memory.ReadString(offset, length)`: the same bounds check as `ReadBytes`,
      then `Encoding.UTF8.GetString`, which replaces ill-formed bytes. */
  function ReadString(mem: Memory, offset: int, length: int): (r: Result<string>)
    ensures r.Ok? <==> InBounds(mem, offset, length)
    ensures r.Err? ==> r.error == OutOfBounds(offset, length, |mem|)
    ensures r.Ok? ==> r.value == DecodeLossy(mem[offset..offset + length])
  {
    var bytes :- Load(mem, offset, length);
    Ok(DecodeLossy(bytes))
  }

  /** `WriteString(s)`: allocate exactly the UTF-8 length of `s`, copy the bytes
      there, return them with the pointer. */
  function WriteString(g: Guest, s: string): (r: Result<(Guest, seq<uint8>, int)>)
    ensures Wf(g) ==> r.Ok? && Wf(r.value.0)
    ensures r.Ok? ==> r.value.1 == Encode(s)
    ensures r.Ok? ==> r.value.0.live == if |Encode(s)| == 0 then g.live else g.live[r.value.2 := |Encode(s)|]
    ensures r.Ok? ==> Load(r.value.0.mem, r.value.2, |r.value.1|) == Ok(r.value.1)
    ensures r.Ok? ==> ReadString(r.value.0.mem, r.value.2, |r.value.1|) == Ok(s)
    ensures r.Ok? && Wf(g) && |Encode(s)| > 0 ==> r.value.2 !in g.live
    ensures r.Ok? ==> Holds(r.value.0, Buf(r.value.2, |Encode(s)|))
    ensures r.Ok? ==> Grows(g, r.value.0)
  {
    var bytes := Encode(s);
    match AllocCopy(g, bytes)
    case Err(e) => Err(e)
    case Ok((g', ptr)) =>
      assert ReadString(g'.mem, ptr, |bytes|) == Ok(s) by { DecodeEncode(s); }
      Ok((g', bytes, ptr))
  }

  /** The body rule of `http_request` (dotnet/WasmClient.cs lines 36-50) for an
      already normalised method. `FormatJson` parses a guest body before it is
      sent, so a body that is not JSON fails the call. */
  function AttachBody(mem: Memory, verb: string, target: Target, body: Buf, codec: Codec): (r: Result<Request>)
    ensures r.Ok? ==> r.value.verb == verb && r.value.target == target
    ensures r.Ok? && body.len > 0 ==>
      && InBounds(mem, body.ptr, body.len)
      && r.value.body == Some(mem[body.ptr..body.ptr + body.len])
      && r.value.headers == [Header("Content-Type", "application/json")]
    ensures body.len <= 0 && CarriesBody(verb) ==>
      r == Ok(Request(verb, target, [Header("Content-Type", "application/json; charset=utf-8")], Some(EmptyObjectBody)))
    ensures body.len <= 0 && !CarriesBody(verb) ==> r == Ok(Request(verb, target, [], None))
    ensures r.Err? ==> body.len > 0
    ensures r.Err? && InBounds(mem, body.ptr, body.len) ==>
      r.error == MalformedJson && codec.parse(DecodeLossy(mem[body.ptr..body.ptr + body.len])).None?
  {
    match ChooseBody(verb, body.len)
    case GuestBytes =>
      var bytes :- Load(mem, body.ptr, body.len);
      if codec.parse(DecodeLossy(bytes)).None? then Err(MalformedJson)
      else Ok(Request(verb, target, [Header("Content-Type", "application/json")], Some(bytes)))
    case EmptyObject =>
      Ok(Request(verb, target, [Header("Content-Type", "application/json; charset=utf-8")], Some(EmptyObjectBody)))
    case NoBody =>
      Ok(Request(verb, target, [], None))
  }

  /** One string argument of `http_request`: the guest passes its length as an
      `int`, which `ReadString` reinterprets as unsigned. */
  function ReadArg(mem: Memory, b: Buf): (r: Result<string>)
    ensures r.Ok? <==> InBounds(mem, b.ptr, AsUInt(b.len))
    ensures r.Ok? ==> r.value == DecodeLossy(mem[b.ptr..b.ptr + AsUInt(b.len)])
    ensures 0 <= b.len ==> r == ReadString(mem, b.ptr, b.len)
  {
    ReadString(mem, b.ptr, AsUInt(b.len))
  }

  /** A URI string that `HttpClient` can send without a base address: an
      absolute `http` or `https` URI. */
  predicate IsHttpUrl(url: string)
  {
    || (|url| >= 7 && url[..7] == "http://")
    || (|url| >= 8 && url[..8] == "https://")
  }

  /** Where `SendAsync` (dotnet/WasmClient.cs line 52) sends a request built
      from the string `url`: an absolute HTTP URI as it is, anything else
      resolved against the client's `BaseAddress`. With no base address there
      is nowhere to send it. */
  function ResolveUri(url: string, baseAddress: Option<string>): (r: Option<Target>)
    ensures r.None? <==> !IsHttpUrl(url) && baseAddress.None?
    ensures r.Some? && r.value.Absolute? ==> IsHttpUrl(url) && r.value.url == url
    ensures r.Some? && r.value.Relative? ==> !IsHttpUrl(url) && r.value.path == url
  {
    if IsHttpUrl(url) then Some(Absolute(url))
    else match baseAddress
      case None => None
      case Some(b) => Some(Relative(url, b))
  }

  /** The part of `http_request` before any byte goes out (dotnet/WasmClient.cs
      lines 29-52): read URL and method, in that order, trim and upper-case the
      method, let `new HttpMethod` reject anything but a token, attach the
      body, and only then, in `SendAsync`, resolve the URL: an unresolvable
      one throws after the body was read and formatted. */
  function PrepareRequest(mem: Memory, a: HttpArgs, baseAddress: Option<string>, codec: Codec): (r: Result<Request>)
    ensures ReadArg(mem, a.url).Err? ==> r == Err(OutOfBounds(a.url.ptr, AsUInt(a.url.len), |mem|))
    ensures ReadArg(mem, a.url).Ok? && ReadArg(mem, a.verb).Err? ==>
      r == Err(OutOfBounds(a.verb.ptr, AsUInt(a.verb.len), |mem|))
    ensures ReadArg(mem, a.url).Ok? && ReadArg(mem, a.verb).Ok? ==>
      var url := ReadArg(mem, a.url).value;
      var verb := DotnetMethod(ReadArg(mem, a.verb).value);
      && (!IsToken(verb) ==> r == Err(InvalidMethod(verb)))
      && (IsToken(verb) && ResolveUri(url, baseAddress).Some? ==>
            r == AttachBody(mem, verb, ResolveUri(url, baseAddress).value, a.body, codec))
      && (IsToken(verb) && ResolveUri(url, baseAddress).None? ==>
            r.Err? && (AttachBody(mem, verb, Absolute(url), a.body, codec).Ok? ==> r.error == NoBaseAddress(url)))
    ensures r.Ok? ==> ResolveUri(ReadArg(mem, a.url).value, baseAddress) == Some(r.value.target)
  {
    var url :- ReadArg(mem, a.url);
    var raw :- ReadArg(mem, a.verb);
    var verb := DotnetMethod(raw);
    if !IsToken(verb) then Err(InvalidMethod(verb))
    else match ResolveUri(url, baseAddress)
      case Some(target) => AttachBody(mem, verb, target, a.body, codec)
      case None =>
        // the request never goes out, so its target does not matter
        var unsent :- AttachBody(mem, verb, Absolute(url), a.body, codec);
        Err(NoBaseAddress(url))
  }

  /** The bytes the host hands back for a successful UTF-8 reply:
      `ReadAsStringAsync` drops a leading byte-order mark and decodes the rest
      (replacing ill-formed bytes), and `GetBytes` re-encodes it. Well-formed
      bytes come back as they were, less that mark. */
  function ResponseBytes(body: seq<uint8>): (r: seq<uint8>)
    ensures Decode(body).Some? && !(|body| >= 3 && body[..3] == BomBytes) ==> r == body
    ensures Decode(body).Some? && |body| >= 3 && body[..3] == BomBytes ==> r == body[3..]
    ensures Decode(r).Some?
  {
    var bytes := Encode(DecodeLossyBom(body));
    assert Decode(body).Some? ==>
      bytes == (if |body| >= 3 && body[..3] == BomBytes then body[3..] else body) by {
      if Decode(body).Some? {
        EncodeDecodeBom(body);
      }
    }
    DecodeEncode(DecodeLossyBom(body));
    bytes
  }

  /** The part of `http_request` after the request is handed to the transport
      (dotnet/WasmClient.cs lines 52-62). */
  function Respond(s: State, req: Request, reply: Reply): (r: Step<int>)
    ensures r.state.sent == s.sent + [req]
    ensures r.state.hostData == s.hostData
    ensures reply.NoAnswer? ==> r == Fail(s.(sent := s.sent + [req]), TransportFailed)
    ensures reply.Answered? && !IsSuccess(reply.status) ==>
      r == Fail(s.(sent := s.sent + [req]), HttpStatus(reply.status))
    ensures Wf(s.guest) && reply.Answered? && IsSuccess(reply.status) ==> r.Done? && Wf(r.state.guest)
    ensures r.Done? ==>
      var bytes := ResponseBytes(reply.body);
      && reply.Answered? && IsSuccess(reply.status)
      && r.state.latestLen == |bytes|
      && r.state.guest.live == (if |bytes| == 0 then s.guest.live else s.guest.live[r.value := |bytes|])
      && Load(r.state.guest.mem, r.value, |bytes|) == Ok(bytes)
    ensures r.Done? && Wf(s.guest) && |ResponseBytes(reply.body)| > 0 ==> r.value !in s.guest.live
    ensures r.Done? ==> Holds(r.state.guest, Buf(r.value, r.state.latestLen))
    ensures Grows(s.guest, r.state.guest)
    ensures Wf(s.guest) ==> Keeps(s.guest, r.state.guest)
  {
    var s1 := s.(sent := s.sent + [req]);
    match reply
    case NoAnswer => Fail(s1, TransportFailed)
    case Answered(status, body) =>
      if !IsSuccess(status) then Fail(s1, HttpStatus(status))
      else
        var bytes := ResponseBytes(body);
        match AllocCopy(s.guest, bytes)
        case Err(e) => Fail(s1, e)
        case Ok((g, ptr)) =>
          assert Holds(g, Buf(ptr, |bytes|));
          assert Wf(s.guest) ==> Keeps(s.guest, g);
          Done(s1.(guest := g, latestLen := |bytes|), ptr)
  }

  /** The `http_request` import: prepare, send, hand the response to the guest.
      The heap only grows and no live block is lost; a failed call leaves the
      heap and the recorded length as they were, and sends nothing when it
      fails before `SendAsync`; a successful one leaves the re-encoded reply
      in a fresh block whose length is the recorded one. */
  function HttpRequest(s: State, a: HttpArgs, baseAddress: Option<string>, codec: Codec, reply: Reply): (r: Step<int>)
    ensures Grows(s.guest, r.state.guest) && r.state.hostData == s.hostData
    ensures Wf(s.guest) ==> Wf(r.state.guest) && Keeps(s.guest, r.state.guest)
    ensures r.Fail? && Wf(s.guest) ==> r.state.guest == s.guest && r.state.latestLen == s.latestLen
    ensures PrepareRequest(s.guest.mem, a, baseAddress, codec).Err? ==> r.Fail? && r.state == s
    ensures PrepareRequest(s.guest.mem, a, baseAddress, codec).Ok? ==>
      r.state.sent == s.sent + [PrepareRequest(s.guest.mem, a, baseAddress, codec).value]
    ensures r.Done? ==> reply.Answered? && IsSuccess(reply.status)
    ensures r.Done? && reply.Answered? ==>
      && r.state.latestLen == |ResponseBytes(reply.body)|
      && Load(r.state.guest.mem, r.value, r.state.latestLen) == Ok(ResponseBytes(reply.body))
      && Holds(r.state.guest, Buf(r.value, r.state.latestLen))
    ensures r.Done? && Wf(s.guest) && r.state.latestLen > 0 ==>
      r.value !in s.guest.live && r.state.guest.live == s.guest.live[r.value := r.state.latestLen]
    ensures Wf(s.guest) && PrepareRequest(s.guest.mem, a, baseAddress, codec).Ok? ==>
      (r.Done? <==> reply.Answered? && IsSuccess(reply.status))
  {
    match PrepareRequest(s.guest.mem, a, baseAddress, codec)
    case Err(e) => Fail(s, e)
    case Ok(req) => Respond(s, req, reply)
  }

  /** `http_request_len` reports exactly the size of the block `http_request`
      just filled, so the guest reads the whole response and nothing more. */
  lemma LenMatchesResponse(s: State, a: HttpArgs, baseAddress: Option<string>, codec: Codec, reply: Reply)
    requires HttpRequest(s, a, baseAddress, codec, reply).Done?
    ensures
      var r := HttpRequest(s, a, baseAddress, codec, reply);
      Load(r.state.guest.mem, r.value, HttpRequestLen(r.state)) == Ok(ResponseBytes(reply.body))
  {
  }

  /** A failed request changes neither the heap nor the recorded length: the
      status check comes before the allocation and before the length is stored. */
  lemma FailureAllocatesNothing(s: State, a: HttpArgs, baseAddress: Option<string>, codec: Codec, reply: Reply)
    requires HttpRequest(s, a, baseAddress, codec, reply).Fail?
    ensures HttpRequest(s, a, baseAddress, codec, reply).state.guest == s.guest || !Wf(s.guest)
    ensures HttpRequest(s, a, baseAddress, codec, reply).state.latestLen == s.latestLen
  {
  }
}

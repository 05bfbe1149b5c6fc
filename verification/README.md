# PostHog wasm bridge — a Dafny model

This project models the host-to-guest WebAssembly bridge of the PostHog
"wasm" SDK experiment. A small Rust guest (`posthog_wasm.wasm`) builds
PostHog `/capture` events. Two hosts drive it: a .NET `WasmClient` and a
Node/Bun module. The model also covers the guest-side `PosthogClient`, which
buffers events and flushes them as one `/batch` request.

What is modelled:

- **Linear memory** is a sequence of bytes. `LinearMemory` gives the .NET
  bounds-checked reads and writes and the clamping `Uint8Array.slice` that
  the Node host uses.
- **The guest heap** is the module `GuestHeap`: `alloc_buffer` and
  `dealloc_buffer` over a bump allocator with a ledger of live blocks. A
  zero-size request gives the dangling pointer without recording it. A
  release that names the wrong pointer or size is an error, because it is
  undefined behaviour in the guest.
- **The ledger of added blocks** is the module `Bridge`. `AddsExactly(g, g',
  bufs)` says that `g'` keeps every block of `g` and adds exactly `bufs`.
  It is stated up to permutation, so whole call sequences can be composed.
  Argument marshalling (`WriteAll`) and cleanup (`ReleaseAll`) are stated
  against it.
- **UTF-8** is written out concretely (`Utf8`). `Encode` covers the hosts'
  encoders. `Decode` is Rust's `str::from_utf8`. `DecodeLossy` is
  `Encoding.UTF8.GetString`, which replaces ill-formed input.
  `DecodeLossyBom` is the same after dropping one leading byte-order mark
  (EF BB BF), as `TextDecoder.decode`, `Response.json()` and .NET's
  `ReadAsStringAsync` do for a UTF-8 body.
- **The hosts' `http_request` imports** are `DotnetHost` and `NodeHost`:
  argument reading, method normalisation, the body rule, the checks `fetch`
  and `HttpClient` make before sending, the status check, the response
  hand-off and `http_request_len`.
- **The guest's exports** are `GuestExports`: `capture`, `send_event`,
  `request` and `log`. Their helper `merge_json_values` is
  `Json.MergeJsonValues`, checked against a map overlay, `Json.Overlay`.
- **The hosts' capture entry points** are `DotnetClient.CaptureAsync` and
  `NodeClient.CaptureEvent`, with `initWasm` and the recorded host buffer.
- **The Extism-style batching client** is `PosthogClient`.

Several things become parameters:

- The network is a `Reply` input (`Answered(status, body)` or `NoAnswer`).
  Requests sent are appended to `State.sent`.
- JSON text is a `Codec` parameter. `Lawful(codec)` is an assumption: parsing
  the serialised text of a value gives the value back, and serialised text
  is never empty and never starts with U+FEFF. Real libraries keep this only
  within their number range and nesting depth (see "## Left out").
- The freshly instantiated guest for `initWasm` is a parameter.
- The `BaseAddress` of the .NET `HttpClient` is a parameter `baseAddress`.
  The client that `http_request` creates at dotnet/WasmClient.cs:32 has none,
  which is the value `None`.

Every throw or trap becomes an `Error` value, so failure paths are ordinary
results.

The .NET host sends the guest's URL as given. The guest posts to the
relative path "/capture", and the `HttpClient` has no base address, so
`SendAsync` refuses the request before anything is sent
(`DotnetClient.CaptureAsyncRefused`). The other .NET lemmas describe the
call as it goes once a base address is set. See "## Findings".

The .NET host reads `capture`'s result with `_latestHttpRequestResponseLength`,
but substitutes 2048 when that length is 0. It also never frees the properties
buffer. Both are modelled as written (`DotnetClient.CaptureAsync`). A scoped
variant (`DotnetClient.CaptureAsyncScoped`) uses the recorded length and frees
every argument. See "## Findings".

Invalid UTF-8 never fails a call. Both hosts decode with replacement
characters, and the guest falls back to fixed strings (`unknown_event`,
`unknown_distinct_id`, `""`, `{}`).

## Model

| member | source | states |
|---|---|---|
| Utf8.EncodeLength | dotnet/WasmClient.cs:134 | Every character takes one to four bytes, and the encoding is as long as the text exactly when the text is ASCII |
| Utf8.DecodeEncode | rust/src/lib.rs:84-85 | Text a host encodes is accepted by `str::from_utf8` and decodes back to the same text; `Encoding.UTF8.GetString` gives it back too |
| Utf8.EncodeDecode | rust/src/lib.rs:85 | Whatever `from_utf8` accepts is exactly the encoding of the text it returns |
| Utf8.LossyAgreesOnValid | dotnet/WasmClient.cs:161 | On well-formed bytes `Encoding.UTF8.GetString` agrees with Rust's strict decoder |
| Utf8.DecodeLossyLength | dotnet/WasmClient.cs:161 | The replacing decoder never gives more characters than there are bytes, and gives none exactly for no bytes |
| Utf8.BadLeadRejected | rust/src/lib.rs:85 | A byte that cannot start a sequence makes `from_utf8` fail, while the replacing decoder turns it into one U+FFFD and goes on with the next byte |
| Utf8.DecodeLossyBomStrips | node-ts/src/wasm.ts:169 | `TextDecoder.decode` is the replacing decoder with one leading U+FEFF removed from its result |
| Utf8.DecodeBomEncode | node-ts/src/wasm.ts:158-169 | Text encoded by `TextEncoder` and decoded by `TextDecoder` comes back less one leading U+FEFF, and unchanged when it does not start with one |
| Utf8.LossyBomAgreesOnValid | node-ts/src/wasm.ts:169 | On well-formed bytes `TextDecoder.decode` is `from_utf8`'s text less one leading U+FEFF |
| Utf8.EncodeDecodeBom | dotnet/WasmClient.cs:54-55 | Well-formed bytes decoded with the mark-dropping decoder and encoded again come back unchanged, or without their first three bytes when those are EF BB BF |
| Utf8.DecodeFirstOfEncoding | rust/src/lib.rs:85 | Decoding starts by consuming exactly one encoded character and returns it |
| Utf8.EncodingOfDecodeFirst | rust/src/lib.rs:85 | Every well-formed leading sequence is the encoding of the character it decodes to |
| Utf8.EncodeAscii | rust/src/lib.rs:111-115 | ASCII text such as "POST" and "/capture" encodes to one byte per character, the character code |
| LinearMemory.Store | dotnet/WasmClient.cs:143-152 | `WriteBytes` succeeds exactly when the range lies in memory (else OutOfBounds with offset, length, size), writes the data there and leaves every other byte and the size unchanged |
| LinearMemory.Load | dotnet/WasmClient.cs:165-174 | `ReadBytes` succeeds exactly when the range lies in memory, else OutOfBounds; it returns the bytes at that range |
| LinearMemory.Slice | node-ts/src/wasm.ts:167-170 | `Uint8Array.slice` never fails: in range it is the bytes there; past the end it stops at the end of memory |
| LinearMemory.LoadAfterStore | dotnet/WasmClient.cs:136 | Reading back a written range gives the bytes written |
| LinearMemory.LoadAcrossStore | dotnet/WasmClient.cs:136 | A write leaves every disjoint range as it was |
| LinearMemory.SliceAgreesWithLoad | node-ts/src/wasm.ts:78-81 | On an in-bounds range the clamping slice and the checked read agree |
| GuestHeap.Alloc | rust/src/lib.rs:20-26 | Size 0 gives the dangling pointer and changes nothing; otherwise a fresh block, disjoint from every live block, inside memory, recorded with its size |
| GuestHeap.Release | rust/src/lib.rs:28-33 | `dealloc_buffer` succeeds exactly for size 0 or a live block of that exact size (else BadRelease), removing only that block |
| GuestHeap.AllocCopy | dotnet/WasmClient.cs:132-138 | Allocate exactly the data's length and copy it: the block reads back as the data, is fresh and is recorded |
| GuestHeap.ReleaseExactlyOnce | rust/src/lib.rs:28-33 | A live block can be released once; releasing it a second time is an error |
| GuestHeap.GrowsTransitive | rust/src/lib.rs:20-33 | Heap growth (memory never shrinks, written bytes below the break stay) composes |
| Json.MergeJsonValues | rust/src/lib.rs:52-70 | The loop result is an object holding every key of both inputs, the override's value where both have it, and equals the reference map union `Overlay` |
| Json.OverlayOfNonObjects | rust/src/lib.rs:52-70 | Merging two non-objects gives the empty object |
| Json.OverlayAssociative | rust/src/lib.rs:52-70 | Merging is associative |
| Json.OverlayIdempotent | rust/src/lib.rs:52-70 | Applying the same overrides twice is applying them once |
| Http.ChooseBody | dotnet/WasmClient.cs:36-50 | Guest bytes exactly when the body length is positive; `{}` exactly when it is not and the method is POST/PUT/PATCH; no body otherwise |
| Http.EmptyObjectIsEncoded | dotnet/WasmClient.cs:49 | The `{}` body is the UTF-8 encoding of "{}" |
| Http.Trim | dotnet/WasmClient.cs:33 | The trimmed method is the contiguous middle of the input, with only white space removed on either side and none left at its ends |
| Http.ToUpperAscii | dotnet/WasmClient.cs:33 | Upper-casing keeps the length and maps each character |
| Http.UpperTokenIsNormal | dotnet/WasmClient.cs:33 | An upper-case token is unchanged by either host's normalisation |
| Http.TokenIsTrimmed | node-ts/src/wasm.ts:54-56 | A token has nothing to trim for either host's notion of white space |
| Bridge.HeldBytesSurvive | rust/src/lib.rs:20-26 | The bytes of a live block survive every later allocation and release |
| Bridge.WriteAll | dotnet/WasmClient.cs:102-106 | Writing texts in order adds exactly one block per text, each of its UTF-8 length and reading back as it |
| Bridge.ReleaseAll | dotnet/WasmClient.cs:125-128 | Releasing a list removes exactly the named blocks, keeps every other block, fails only with BadRelease, and cannot fail on held, pairwise distinct buffers |
| Bridge.ReleaseAllStopsAt | dotnet/WasmClient.cs:128 | A release list ending in a buffer that is not live fails with BadRelease for that buffer |
| Bridge.ReleaseAdded | node-ts/src/wasm.ts:216-220 | Releasing some of the blocks a sequence of calls added succeeds and leaves exactly the others added |
| Bridge.AddsCompose | rust/src/lib.rs:148-151 | Blocks added by two consecutive steps are the blocks added by the whole |
| Bridge.AddsAfterRelease | node-ts/src/wasm.ts:189-193 | Releasing a block held before some writes leaves the writes added to the heap without that block |
| DotnetHost.ReadString | dotnet/WasmClient.cs:154-162 | `ReadString` succeeds exactly in bounds (else OutOfBounds) and returns the lossy decoding of that range |
| DotnetHost.WriteString | dotnet/WasmClient.cs:132-138 | The bytes written are the text's encoding, in a fresh recorded block, and `ReadString` gives the text back |
| DotnetHost.ReadArg | dotnet/WasmClient.cs:29-30 | Lengths reach `ReadString` through an unchecked `(uint)` cast: a negative length reads as a huge one and fails the bounds check |
| DotnetHost.AttachBody | dotnet/WasmClient.cs:36-50 | Whatever the target: a positive-length body must lie in memory and parse as JSON; it is sent as is with Content-Type application/json; otherwise `{}` for POST/PUT/PATCH and no body for the rest |
| DotnetHost.ResolveUri | dotnet/WasmClient.cs:32-34 | An `http://` or `https://` URL is used as is; any other URL is taken relative to the client's base address, and with no base address it cannot be sent |
| DotnetHost.PrepareRequest | dotnet/WasmClient.cs:29-52 | URL read first, method second, each failing OutOfBounds; a method that after trim and upper-casing is not a token is rejected; then the body rule; a URL that cannot be resolved then fails with NoBaseAddress; a prepared request's target is the resolved URL |
| DotnetHost.ResponseBytes | dotnet/WasmClient.cs:54-55 | Well-formed response bytes are handed to the guest unchanged, less a leading EF BB BF; the bytes handed over are always well-formed UTF-8 |
| DotnetHost.Respond | dotnet/WasmClient.cs:52-62 | Every prepared request is sent; no answer or a non-2xx status fails before any allocation; otherwise the response bytes sit in a fresh block the guest holds and their length is recorded |
| DotnetHost.HttpRequest | dotnet/WasmClient.cs:24-64 | The heap only grows and no live block is lost; a preparation error fails with the state unchanged and nothing sent; a prepared request is sent; a later failure leaves the heap and the recorded length as they were; the call succeeds exactly for a 2xx reply and then leaves the response bytes in a fresh held block whose length is the recorded one |
| DotnetHost.LenMatchesResponse | dotnet/WasmClient.cs:66-68 | `http_request_len` is exactly the length of the block just filled |
| DotnetHost.FailureAllocatesNothing | dotnet/WasmClient.cs:52-61 | A failed request changes neither the heap nor the recorded length |
| NodeHost.WasmToString | node-ts/src/wasm.ts:167-170 | Never fails; for a range starting inside memory it decodes the range, cut off at the end of memory, less a leading U+FEFF |
| NodeHost.StringToWasm | node-ts/src/wasm.ts:157-164 | Allocates exactly the encoded length in a fresh held block and writes the bytes there; `wasmToString` gives the text back less a leading U+FEFF |
| NodeHost.AttachBody | node-ts/src/wasm.ts:76-94 | A positive-length body is the clamped slice and its text must parse as JSON (else MalformedJson); `{}` for POST/PUT/PATCH; both JSON headers always |
| NodeHost.FetchCheck | node-ts/src/wasm.ts:97 | `fetch` rejects, before any I/O, a method that is not a token or is CONNECT, TRACE or TRACK (InvalidMethod), then a GET or HEAD request with a body (BodyNotAllowed); any other request passes unchanged |
| NodeHost.PrepareRequest | node-ts/src/wasm.ts:53-97 | With no recorded host the call fails with HostNotSet; otherwise the path is taken relative to the recorded host, the body rule applies, and then `fetch`'s checks |
| NodeHost.Respond | node-ts/src/wasm.ts:97-122 | No answer or a non-ok status fails; a reply whose text, less a leading U+FEFF, is not JSON fails; otherwise the re-serialised reply sits in a fresh held block and its length is recorded |
| NodeHost.HttpRequest | node-ts/src/wasm.ts:44-123 | The heap only grows and no live block is lost; a preparation error fails with the state unchanged and nothing sent; a prepared request is sent; a later failure leaves the heap and the recorded length as they were; the call succeeds exactly for an ok reply whose text is JSON and then leaves its re-serialisation in a fresh held block whose length is the recorded one |
| NodeHost.LenMatchesResponse | node-ts/src/wasm.ts:124-126 | `http_request_len` is exactly the length of the re-serialised reply just written |
| NodeHost.BodyCheckOfBytes | node-ts/src/wasm.ts:77-86 | An in-bounds body is accepted exactly when its text, less a leading U+FEFF, is JSON, and the bytes themselves are sent |
| NodeHost.DotnetBodyCheckOfBytes | dotnet/WasmClient.cs:36-45 | An in-bounds body is accepted by the .NET host exactly when its `GetString` text is JSON, and the bytes themselves are sent |
| NodeHost.BodyRuleAgreesWithDotnet | node-ts/src/wasm.ts:76-94 | For an in-bounds body that does not start with EF BB BF, one host accepts it exactly when the other does; a body that starts with it is accepted by Node exactly when the rest is JSON; when both accept, they send the same bytes |
| GuestExports.HttpRequestContract | rust/src/lib.rs:140-148 | Either host's import only grows the heap; on failure nothing changes; on success the response is in a fresh block of the recorded length (dangling when empty) |
| GuestExports.StaticArgsRead | rust/src/lib.rs:111-115 | The guest's static "POST" and "/capture" read back correctly through both hosts' readers |
| GuestExports.DataStaysIntact | rust/src/lib.rs:111-115 | The static strings survive every heap operation |
| GuestExports.DecodeOr | rust/src/lib.rs:85 | Valid UTF-8 decodes to the text it encodes; anything else gives the fallback |
| GuestExports.DecodeOrOfEncoding | rust/src/lib.rs:84-94 | An encoded argument decodes to itself, never to the fallback |
| GuestExports.ReadArgs | rust/src/lib.rs:84-94 | `capture` traps exactly when a non-empty argument range does not lie in memory (an empty one is read as no bytes wherever it points), and otherwise decodes each argument with its own fallback |
| GuestExports.EmptyArgsRead | rust/src/lib.rs:84-94 | Empty arguments decode to empty strings, not to the fallbacks, even when they point past the end of memory |
| GuestExports.ReadsBack | rust/src/lib.rs:84-94 | Four ranges holding the encodings of four texts read back as those texts |
| GuestExports.UserProperties | rust/src/lib.rs:98-99 | Properties that parse are used as parsed; text that does not parse becomes the empty object |
| GuestExports.UserPropertiesOfSerialized | rust/src/lib.rs:98-99 | Serialised properties parse back to themselves |
| GuestExports.EventPayload | rust/src/lib.rs:117-133 | The payload has exactly the keys api_key, event, distinct_id and properties; the properties are the three library defaults overlaid with the user's |
| GuestExports.EventBodyIsJson | rust/src/lib.rs:135-137 | The body is non-empty and parses back to the payload, through either host's decoder |
| GuestExports.CopyResponse | rust/src/lib.rs:148-151 | The guest's copy of the response is a fresh block of the recorded length with the same bytes, every live block stays; empty responses give the dangling pointer |
| GuestExports.RequestExport | rust/src/lib.rs:161-180 | `request` keeps a well-formed heap well-formed and only grows it |
| GuestExports.RequestExportReturnsResponse | rust/src/lib.rs:161-180 | `request` returns a copy of the host's response and leaves two new blocks, the host's and the copy |
| GuestExports.FinishEventFrees | rust/src/lib.rs:148-153 | After the copy, the body string is freed and only the response blocks remain |
| GuestExports.SendEvent | rust/src/lib.rs:105-153 | `send_event` keeps every live block and a well-formed heap, only grows the heap, leaves the recorded host alone, and returns a block that was not live before |
| GuestExports.SendEventPostsPayload | rust/src/lib.rs:139-147 | `send_event` sends POST `/capture` with the payload body: on .NET relative to the base address, and without one it fails with NoBaseAddress and sends nothing; on Node relative to the recorded host, and with no host it fails with HostNotSet and sends nothing |
| GuestExports.PostEventSends | rust/src/lib.rs:139-147 | A prepared request is recorded as sent, whatever the reply |
| GuestExports.PostEventRefused | rust/src/lib.rs:139-147 | A request the .NET host refuses before sending fails `send_event`'s post with that error and the state unchanged |
| GuestExports.DotnetPreparesEvent | dotnet/WasmClient.cs:29-52 | The .NET host turns the guest's arguments into POST of the payload to "/capture" relative to its base address, and without a base address refuses with NoBaseAddress |
| GuestExports.DotnetAttachesEvent | dotnet/WasmClient.cs:36-45 | A JSON event body is attached to the POST as it is, with the JSON content type |
| GuestExports.NodePreparesEvent | node-ts/src/wasm.ts:53-97 | The Node host turns them into POST of the payload to "/capture" relative to the host, and `fetch` lets it through |
| GuestExports.SendEventSucceeds | rust/src/lib.rs:105-153 | With a success reply (on .NET a base address; on Node a recorded host and a reply that is JSON) `send_event` completes |
| GuestExports.PostEventReturnsResponse | rust/src/lib.rs:139-153 | The returned pointer holds the host's response bytes; the body block is gone and exactly two response blocks are new |
| GuestExports.SendEventReturnsResponse | rust/src/lib.rs:105-153 | `send_event` returns the response bytes at the recorded length and adds exactly the two response blocks |
| GuestExports.SendEventDelivers | rust/src/lib.rs:148-152 | The same, stated in the ledger of added blocks |
| GuestExports.LogBuffer | rust/src/lib.rs:93-96 | The range handed to `log_message` is the properties argument when it is UTF-8; otherwise the argument is non-empty and the range is the static `"{}"` below the heap |
| GuestExports.LogMessage | dotnet/WasmClient.cs:71-77 | The .NET logger fails with OutOfBounds exactly when the message range is outside memory, even an empty one; the Node logger fails with MalformedJson exactly when the clamped text is not JSON |
| GuestExports.LogsProperties | rust/src/lib.rs:93-96 | For decodable arguments, logging fails on .NET exactly when the properties range is outside memory, which only an empty range can be, and on Node exactly when the decoded properties text, less a leading U+FEFF, is not JSON |
| GuestExports.LogsValidText | node-ts/src/wasm.ts:127-132 | A UTF-8 properties range is logged as its own text on both hosts |
| GuestExports.ValidTextReads | node-ts/src/wasm.ts:128 | `wasmToString` of a UTF-8 range, empty or not, is `from_utf8`'s text less a leading U+FEFF |
| GuestExports.EmptyTextReads | node-ts/src/wasm.ts:167-170 | `wasmToString` of an empty range is the empty text wherever it points |
| GuestExports.LogsFallback | rust/src/lib.rs:93-96 | A properties range that is not UTF-8 is in memory and is logged as the static `"{}"`, which never fails on .NET |
| GuestExports.FallbackReads | rust/src/lib.rs:94 | Both hosts read the static `"{}"` back from the data segment |
| GuestExports.LogsEncodedText | node-ts/src/wasm.ts:127-132 | Properties a host wrote as encoded text are logged as that text: always on .NET, and on Node exactly when the text, less a leading U+FEFF, is JSON |
| GuestExports.LogsSerialized | rust/src/lib.rs:96 | Under a lawful codec, properties holding serialised JSON are logged without error by either host |
| GuestExports.DotnetLogRejectsStray | dotnet/WasmClient.cs:157 | On .NET, `capture` whose properties range lies outside memory fails in `log_message` with OutOfBounds before `send_event`, and only an empty range can do so |
| GuestExports.Capture | rust/src/lib.rs:72-103 | `capture` traps on a non-empty argument outside memory; then it fails with the host logger's error; otherwise it is `send_event` on the decoded arguments |
| DotnetClient.MarshalRoundTrip | dotnet/WasmClient.cs:102-106 | The four written arguments read back in the guest as the caller's strings, in four fresh blocks of their encoded lengths |
| DotnetClient.CaptureSendsArguments | dotnet/WasmClient.cs:102-119 | Arguments the .NET host wrote are logged without error, so `capture` goes on to `send_event` with them |
| DotnetClient.CollectResult | dotnet/WasmClient.cs:124-129 | The result is read first and fails OutOfBounds when its range is not in memory; then the buffers are released in order and a failed release fails the call |
| DotnetClient.CaptureAsync | dotnet/WasmClient.cs:96-130 | Whatever the reply and however the call ends, a well-formed heap stays well-formed and only grows, and the recorded host buffer is untouched |
| DotnetClient.CaptureAsyncScoped | dotnet/WasmClient.cs:96-130 | The same for the variant that reads with the recorded length and frees every argument |
| DotnetClient.CaptureAsyncRefused | dotnet/WasmClient.cs:32-52 | With the `HttpClient` that line 32 creates, which has no base address, `CaptureAsync` fails for every reply with NoBaseAddress on "/capture" and sends nothing; so does the scoped variant |
| DotnetClient.CaptureCompletes | dotnet/WasmClient.cs:102-119 | With a base address, up to `capture`'s return: the response is at the returned pointer with the recorded length, and exactly the arguments and two response blocks are new |
| DotnetClient.ResultText | dotnet/WasmClient.cs:124 | Reading back the response gives the reply body as `ReadAsStringAsync` decodes it, leading mark dropped |
| DotnetClient.CaptureAsyncDelivers | dotnet/WasmClient.cs:96-130 | With a base address and a success reply with a body, `CaptureAsync` returns the body's text and leaves the host's response block and the properties buffer allocated |
| DotnetClient.CaptureAsyncEmptyReply | dotnet/WasmClient.cs:121-128 | With a base address and a success reply with an empty body, the 2048 fallback makes `CaptureAsync` fail: an out-of-bounds read or a release of a block that does not exist |
| DotnetClient.CaptureAsyncScopedDelivers | dotnet/WasmClient.cs:96-130 | With a base address, the recorded length and every argument freed, every success reply is returned as text and only the host's response block stays |
| NodeClient.InitWasm | node-ts/src/wasm.ts:31-35 | After `initWasm` the module is initialised; the first call installs the instance and leaves the recorded host, the response length and the sent requests as they were |
| NodeClient.InitWasmIdempotent | node-ts/src/wasm.ts:31-35 | A second `initWasm` changes nothing, whichever instance it would have installed |
| NodeClient.SwapHost | node-ts/src/wasm.ts:189-193 | The new host buffer is recorded; the previous one, if any, is released first, and a stale one fails with BadRelease; the heap only grows |
| NodeClient.FinishCapture | node-ts/src/wasm.ts:209-222 | The response is read with the recorded length as `TextDecoder` reads it; the four arguments and the response block are released and every other block and module global stays; it succeeds whenever those five buffers are held apart |
| NodeClient.CaptureEvent | node-ts/src/wasm.ts:172-223 | Whatever the reply and however the call ends, a well-formed heap stays well-formed and only grows, and a host buffer is recorded afterwards |
| NodeClient.SwapAndCapture | node-ts/src/wasm.ts:189-222 | Once the strings are written, a host buffer is recorded afterwards whether the swap succeeds or not, and the heap only grows |
| NodeClient.CaptureEventKeepsHost | node-ts/src/wasm.ts:182-223 | For every reply and every outcome: the new host buffer is recorded, still owned and reads back as the host; the previous host block is no longer live; the heap stays well-formed and only grows |
| NodeClient.DefaultsRecordLocalhost | node-ts/src/wasm.ts:172-193 | Called without properties and host, `captureEvent` sends "{}" as the properties and records a host buffer that reads back as "http://localhost:8000", whatever the reply |
| NodeClient.CaptureAndFinishKeepsHost | node-ts/src/wasm.ts:196-222 | `capture` and the releases after it leave the host buffer held and its bytes unchanged, whatever the reply |
| NodeClient.CaptureEventPrepares | node-ts/src/wasm.ts:182-193 | Before `capture`: the arguments read back, the new host buffer is recorded and reads as the host, the previous host block is no longer live, and the heap gains exactly the five new buffers over the heap without the old host buffer |
| NodeClient.CaptureSends | node-ts/src/wasm.ts:196-207 | `capture` on Node returns the re-serialised reply, leaves the host buffer intact and adds exactly the two response blocks |
| NodeClient.CaptureEventCompletes | node-ts/src/wasm.ts:182-207 | Up to `capture`'s return, all blocks added are the five written buffers and the two response blocks |
| NodeClient.CaptureEventDelivers | node-ts/src/wasm.ts:172-223 | For success JSON replies, `captureEvent` returns the re-serialised reply; the new host buffer stays recorded and owned and reads back as the host less a leading U+FEFF; only it and the host's response block are added (the old host buffer is gone) |
| PosthogClient.EventsRoundTrip | rust/src/client.rs:19-24 | The serialised events read back as the same events in the same order |
| PosthogClient.BatchRoundTrip | rust/src/client.rs:26-31 | The batch body read back carries the API key, the migration flag and every event in order |
| PosthogClient.BodyReadsBack | rust/src/client.rs:51-56 | The body text `flush` sends parses back to the batch it was built from |
| PosthogClient.New | rust/src/client.rs:34-39 | A new client keeps the configuration and starts with no events |
| PosthogClient.Capture | rust/src/client.rs:41-44 | Capture appends the event after the earlier ones, keeping them and the configuration unchanged |
| PosthogClient.CaptureAllAppends | rust/src/client.rs:41-44 | Capturing several events appends exactly them, in order |
| PosthogClient.Flush | rust/src/client.rs:46-63 | After `flush` the buffer is empty even if the request fails; it sends POST to host + "/batch" with Content-Type application/json; the body parses back to the API key, `historical_migration: false` and the buffered events in order; only a transport failure is an error |

## Left out

- Console and stdout output (`log_message`'s output, the hosts' request and response logging, the `println!` in `flush`) is left out. Only the parts of `log_message` that can throw are kept: the .NET `ReadString` bounds check and the Node `JSON.parse`.
- Async behaviour is left out: `Promise`s, `await`, and the blocking `.Result` calls. The Node `http_request` is modelled as synchronous. In reality WebAssembly would receive a `Promise` coerced to a number; the model hands back the response pointer instead.
- Instantiation and linking are left out: `Module.FromFile`, `Linker`, `WebAssembly.instantiate`, and lookup of exports. The instance `initWasm` installs is a parameter.
- Allocation failure and 32-bit pointer width are left out. Memory grows on demand without limit; page-sized growth is not modelled.
- `wee_alloc`'s reuse of freed blocks is left out. The allocator is a bump allocator, so a freed block is never handed out again.
- NodeClient.CaptureEventKeepsHost: that the previous host block is no longer live holds for the bump allocator. `wee_alloc` may hand the freed address to a later allocation, which is then live as a new block.
- Json.Lawful is an assumption about the JSON libraries, not a property they always keep. `JSON.parse` loses integers above 2^53. serde_json without `arbitrary_precision` turns integers beyond 64 bits into floating point. `JsonDocument.Parse` rejects nesting deeper than 64 levels. Values beyond these limits are not modelled.
- DotnetHost.ResponseBytes models only a UTF-8 reply body. `ReadAsStringAsync` picks its decoder from the Content-Type charset, or from a UTF-16 or UTF-32 byte-order mark; those cases are not modelled.
- DotnetHost.ResolveUri treats only `http://` and `https://` URLs as absolute. `new HttpRequestMessage` throwing `UriFormatException` on a malformed URL is not modelled. Other absolute schemes are not modelled; on Unix "/capture" is read as `file:///capture`, which `SendAsync` also refuses, and the model reports that refusal as NoBaseAddress.
- The guest's fallback body `{"error":"Failed to serialize event payload"}` is left out. Serialising a `serde_json::Value` does not fail.
- `flush`'s `.expect("failed to serialize body")` is left out for the same reason.
- `JsonSerializerHelper` and `JSON.stringify` of the caller's properties are left out. The properties text is taken as given, and `FormatJson` is only its parse check.
- JSON text is left out: key order, spacing, and `writeIndented`. It is opaque behind `Codec`.
- `Utf8.DecodeLossy` does not model UTF-16 surrogates. Strings are sequences of Unicode scalar values.
- The case mapping of non-ASCII method characters by `ToUpperInvariant` and `toUpperCase` is left out. Only ASCII letters are mapped.
- `new URL(path, host)` resolution is left out, including the TypeError it throws on an invalid URL. The target is the uninterpreted pair `Relative(path, host)`.
- GuestExports.ReadArgs traps on every non-empty argument that runs past the end of memory. `from_utf8` stops at the first ill-formed byte, so a range whose in-memory part is already ill-formed may fall back without a trap. Which bytes it loads before stopping depends on its word-sized fast path, so that case is not modelled. Neither host passes such a range.
- The two extra host arguments Node passes to the 8-parameter `capture` are left out. WebAssembly drops them.
- `GuestExports.Capture` does not free the host's response block (`resp_ptr`), because the guest never does. The ledger lemmas list that block as left behind.
- Failure paths leak in the source: a throw after the arguments are written leaves them allocated. For `captureEvent`, `CaptureAsync` and `CaptureAsyncScoped`, the contracts state after a failure only that the heap stays well-formed and only grew (and, for `captureEvent`, where the host buffer stands), not which other blocks remain.
- `PosthogClient.Flush`: the response body and status are not checked or modelled. Extism's `http::request` reports only a failed call, modelled as `NoAnswer`.
- The Go client and the other SDK files are not part of this model.

## Findings

| source | as written | input that shows it | evidently intended | confidence | as-written member | corrected member |
|---|---|---|---|---|---|---|
| dotnet/WasmClient.cs:32-34 | `http_request` creates `new HttpClient()` with no base address and builds the request from the guest's URL, which `send_event` sets to the relative "/capture" | Any `CaptureAsync` call: `SendAsync` refuses the relative URI before any I/O, so no event is ever sent | Resolve "/capture" against a configured PostHog host, as the Node host does with its recorded host | not executed | DotnetClient.CaptureAsyncRefused | DotnetClient.CaptureAsyncScopedDelivers |
| dotnet/WasmClient.cs:121-128 | When `http_request_len` is 0, `CaptureAsync` reads 2048 bytes at the result pointer and then deallocates 2048 bytes there | With a base address set, a success reply with an empty body: the guest returns the dangling pointer 1, and no 2048-byte block exists | Read and free exactly the recorded length, which is 0 | not executed | DotnetClient.CaptureAsyncEmptyReply | DotnetClient.CaptureAsyncScopedDelivers |
| dotnet/WasmClient.cs:125-128 | `CaptureAsync` frees the event, distinct id, API key and result buffers but never the properties buffer | With a base address set, any successful call: the properties block stays live afterwards | Free every argument buffer that was written | not executed | DotnetClient.CaptureAsyncDelivers | DotnetClient.CaptureAsyncScopedDelivers |

/** The HTTP vocabulary both hosts share: what a request and a reply look like,
    how the guest's method name is normalised, and the rule that decides which
    body goes out (dotnet/WasmClient.cs and node-ts/src/wasm.ts implement the
    same rule).
 */
module Http {
  import opened Outcomes
  import opened Utf8

  /** Where a request goes. `Relative(path, base)` stands for WHATWG
      `new URL(path, base)`, which the model leaves unevaluated. */
  datatype Target = Absolute(url: string) | Relative(path: string, base: string)

  datatype Header = Header(name: string, value: string)

  /** An outgoing request as handed to the transport. */
  datatype Request = Request(verb: string, target: Target, headers: seq<Header>, body: Option<seq<uint8>>)

  /** What the transport gave back for a request: a status and body, or nothing at all. */
  datatype Reply = Answered(status: int, body: seq<uint8>) | NoAnswer

  /** `EnsureSuccessStatusCode` and `Response.ok` both accept exactly 200..299. */
  predicate IsSuccess(status: int)
  {
    200 <= status <= 299
  }

  /** The two bytes of `{}`. */
  const EmptyObjectBody: seq<uint8> := [0x7B, 0x7D]

  lemma EmptyObjectIsEncoded()
    ensures Encode("{}") == EmptyObjectBody
  {
  }

  predicate CarriesBody(verb: string)
  {
    verb == "POST" || verb == "PUT" || verb == "PATCH"
  }

  /** Which body the hosts attach, decided from the normalised method and the
      guest's body length before any body byte is read. */
  datatype BodyChoice = GuestBytes | EmptyObject | NoBody

  function ChooseBody(verb: string, bodyLen: int): (c: BodyChoice)
    ensures c == GuestBytes <==> bodyLen > 0
    ensures c == EmptyObject <==> bodyLen <= 0 && CarriesBody(verb)
    ensures c == NoBody <==> bodyLen <= 0 && !CarriesBody(verb)
  {
    if bodyLen > 0 then GuestBytes
    else if CarriesBody(verb) then EmptyObject
    else NoBody
  }

  // ---------------------------------------------------------------------------
  // Method normalisation: trim, then upper-case

  /** White space common to .NET `Char.IsWhiteSpace` and ECMAScript `String.prototype.trim`:
      U+0009..U+000D, the space separators, and U+2028 / U+2029. */
  predicate IsCommonSpace(c: char)
  {
    var n := c as int;
    || 0x09 <= n <= 0x0D || n == 0x20 || n == 0xA0 || n == 0x1680
    || 0x2000 <= n <= 0x200A || n == 0x2028 || n == 0x2029
    || n == 0x202F || n == 0x205F || n == 0x3000
  }

  /** `Char.IsWhiteSpace` also counts U+0085 (NEXT LINE). */
  predicate IsDotnetSpace(c: char)
  {
    IsCommonSpace(c) || c as int == 0x85
  }

  /** ECMAScript's WhiteSpace also counts U+FEFF (ZERO WIDTH NO-BREAK SPACE). */
  predicate IsJsSpace(c: char)
  {
    IsCommonSpace(c) || c as int == 0xFEFF
  }

  /** Number of leading characters of `s` that `ws` accepts. */
  function LeadingSpace(s: string, ws: char -> bool): (n: nat)
    ensures n <= |s|
    ensures forall i :: 0 <= i < n ==> ws(s[i])
    ensures n < |s| ==> !ws(s[n])
  {
    if |s| == 0 || !ws(s[0]) then 0 else 1 + LeadingSpace(s[1..], ws)
  }

  /** Number of trailing characters of `s` that `ws` accepts. */
  function TrailingSpace(s: string, ws: char -> bool): (n: nat)
    ensures n <= |s|
    ensures forall i :: |s| - n <= i < |s| ==> ws(s[i])
    ensures n < |s| ==> !ws(s[|s| - n - 1])
  {
    if |s| == 0 || !ws(s[|s| - 1]) then 0 else 1 + TrailingSpace(s[..|s| - 1], ws)
  }

  /** `Trim()` / `trim()` with the given notion of white space: only white
      space is removed, and only from the two ends. */
  function Trim(s: string, ws: char -> bool): (r: string)
    ensures LeadingSpace(s, ws) + |r| <= |s|
    ensures |r| > 0 ==> !ws(r[0]) && !ws(r[|r| - 1])
    ensures r == s[LeadingSpace(s, ws)..LeadingSpace(s, ws) + |r|]
    ensures forall i :: 0 <= i < LeadingSpace(s, ws) ==> ws(s[i])
    ensures forall i :: LeadingSpace(s, ws) + |r| <= i < |s| ==> ws(s[i])
  {
    var lead := LeadingSpace(s, ws);
    var rest := s[lead..];
    var trail := TrailingSpace(rest, ws);
    assert lead < |s| ==> trail < |rest|;
    rest[..|rest| - trail]
  }

  function UpperAscii(c: char): char
  {
    if 'a' <= c <= 'z' then (c as int - 32) as char else c
  }

  /** Upper-casing, restricted to the ASCII letters. */
  function ToUpperAscii(s: string): (r: string)
    ensures |r| == |s|
    ensures forall i :: 0 <= i < |s| ==> r[i] == UpperAscii(s[i])
  {
    if |s| == 0 then [] else [UpperAscii(s[0])] + ToUpperAscii(s[1..])
  }

  /** `method.Trim().ToUpperInvariant()` (dotnet/WasmClient.cs). */
  function DotnetMethod(raw: string): string
  {
    ToUpperAscii(Trim(raw, IsDotnetSpace))
  }

  /** `method.trim().toUpperCase()` (node-ts/src/wasm.ts). */
  function NodeMethod(raw: string): string
  {
    ToUpperAscii(Trim(raw, IsJsSpace))
  }

  /** Characters allowed in an HTTP token (`tchar`, section 3.2.6 of RFC 7230). */
  predicate IsTokenChar(c: char)
  {
    || 'A' <= c <= 'Z' || 'a' <= c <= 'z' || '0' <= c <= '9'
    || c in "!#$%&'*+-.^_`|~"
  }

  /** What `new HttpMethod(name)` accepts: a non-empty token. */
  predicate IsToken(s: string)
  {
    |s| > 0 && forall i :: 0 <= i < |s| ==> IsTokenChar(s[i])
  }

  /** The methods `fetch` refuses (the Fetch standard's "forbidden method"),
      matched without regard to ASCII case. */
  predicate IsForbiddenMethod(verb: string)
  {
    var v := ToUpperAscii(verb);
    v == "CONNECT" || v == "TRACE" || v == "TRACK"
  }

  /** A method that is already an upper-case token passes both hosts'
      normalisation unchanged. */
  lemma UpperTokenIsNormal(s: string)
    requires IsToken(s)
    requires forall i :: 0 <= i < |s| ==> !('a' <= s[i] <= 'z')
    ensures DotnetMethod(s) == s && NodeMethod(s) == s
  {
    TokenIsTrimmed(s, IsDotnetSpace);
    TokenIsTrimmed(s, IsJsSpace);
    var u := ToUpperAscii(s);
    assert forall i :: 0 <= i < |s| ==> u[i] == s[i];
    assert u == s;
  }

  lemma TokenIsTrimmed(s: string, ws: char -> bool)
    requires IsToken(s)
    requires ws == IsDotnetSpace || ws == IsJsSpace
    ensures Trim(s, ws) == s
  {
    assert !ws(s[0]);
    assert LeadingSpace(s, ws) == 0;
    assert s[0..] == s;
    assert !ws(s[|s| - 1]);
    assert TrailingSpace(s, ws) == 0;
  }
}

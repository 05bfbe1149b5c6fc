/** UTF-8 as the three runtimes of the bridge use it.

    - `Encode` is what `Encoding.UTF8.GetBytes`, `TextEncoder.encode` and Rust's
      `str::as_bytes` produce for a string of Unicode scalar values.
    - `Decode` is Rust's `str::from_utf8`: it rejects any ill-formed input.
    - `DecodeLossy` is what `Encoding.UTF8.GetString` does: every maximal
      ill-formed subpart becomes one U+FFFD.
    - `DecodeLossyBom` is the same after dropping one leading byte-order mark,
      as the WHATWG "UTF-8 decode" does (`TextDecoder.decode` with its default
      `ignoreBOM: false`, `Response.json()`), and as .NET's
      `HttpContent.ReadAsStringAsync` does for a UTF-8 body.

    Well-formedness follows Table 3-7 of the Unicode Standard (section 3.9).
 */
module Utf8 {
  import opened Outcomes

  newtype uint8 = x: int | 0 <= x < 0x100

  const Replacement: char := '\U{FFFD}'

  function EncodeChar(c: char): (r: seq<uint8>)
    ensures 1 <= |r| <= 4
    ensures (c as int < 0x80) <==> |r| == 1
  {
    var cp := c as int;
    if cp < 0x80 then
      [cp as uint8]
    else if cp < 0x800 then
      [(0xC0 + cp / 0x40) as uint8, (0x80 + cp % 0x40) as uint8]
    else if cp < 0x1_0000 then
      [(0xE0 + cp / 0x1000) as uint8, (0x80 + cp / 0x40 % 0x40) as uint8,
       (0x80 + cp % 0x40) as uint8]
    else
      [(0xF0 + cp / 0x4_0000) as uint8, (0x80 + cp / 0x1000 % 0x40) as uint8,
       (0x80 + cp / 0x40 % 0x40) as uint8, (0x80 + cp % 0x40) as uint8]
  }

  function Encode(s: string): seq<uint8>
  {
    if |s| == 0 then [] else EncodeChar(s[0]) + Encode(s[1..])
  }

  /** Length of the sequence that lead byte `b` introduces; 0 when `b` cannot lead one. */
  function SequenceLength(b: uint8): nat
  {
    if b < 0x80 then 1
    else if 0xC2 <= b <= 0xDF then 2
    else if 0xE0 <= b <= 0xEF then 3
    else if 0xF0 <= b <= 0xF4 then 4
    else 0
  }

  /** The second byte of a multi-byte sequence has a narrower range after E0, ED, F0 and F4. */
  predicate SecondOk(lead: uint8, b: uint8)
  {
    var lo := if lead == 0xE0 then 0xA0 else if lead == 0xF0 then 0x90 else 0x80;
    var hi := if lead == 0xED then 0x9F else if lead == 0xF4 then 0x8F else 0xBF;
    lo <= b <= hi
  }

  predicate IsContinuation(b: uint8)
  {
    0x80 <= b <= 0xBF
  }

  /** How many bytes after the lead of a sequence of `n` bytes are acceptable,
      stopping at the first one that is not (or at the end of `bs`). */
  function AcceptedTail(bs: seq<uint8>, n: nat): (k: nat)
    requires |bs| >= 1 && 2 <= n <= 4
    ensures k < n && k < |bs|
  {
    if |bs| >= 2 && SecondOk(bs[0], bs[1]) then
      if n >= 3 && |bs| >= 3 && IsContinuation(bs[2]) then
        if n >= 4 && |bs| >= 4 && IsContinuation(bs[3]) then 3 else 2
      else 1
    else 0
  }

  /** The first character of `bs`, how many bytes it takes, and whether those bytes were well formed. */
  datatype Decoded = Decoded(c: char, width: nat, valid: bool)

  function DecodeFirst(bs: seq<uint8>): (d: Decoded)
    requires |bs| > 0
    ensures 1 <= d.width <= |bs|
    ensures d.valid ==> d.width == SequenceLength(bs[0])
  {
    var n := SequenceLength(bs[0]);
    if n == 0 then Decoded(Replacement, 1, false)
    else if n == 1 then Decoded(bs[0] as int as char, 1, true)
    else
      var k := AcceptedTail(bs, n);
      if k + 1 < n then Decoded(Replacement, k + 1, false)
      else
        var b0, b1 := bs[0] as int, bs[1] as int;
        if n == 2 then
          Decoded(((b0 - 0xC0) * 0x40 + (b1 - 0x80)) as char, 2, true)
        else if n == 3 then
          var b2 := bs[2] as int;
          Decoded(((b0 - 0xE0) * 0x1000 + (b1 - 0x80) * 0x40 + (b2 - 0x80)) as char, 3, true)
        else
          var b2, b3 := bs[2] as int, bs[3] as int;
          Decoded(((b0 - 0xF0) * 0x4_0000 + (b1 - 0x80) * 0x1000 + (b2 - 0x80) * 0x40 + (b3 - 0x80)) as char, 4, true)
  }

  /** Rust's `str::from_utf8`: the text when `bs` is well-formed UTF-8, `None` otherwise. */
  function Decode(bs: seq<uint8>): Option<string>
    decreases |bs|
  {
    if |bs| == 0 then Some([])
    else
      var d := DecodeFirst(bs);
      if !d.valid then None
      else match Decode(bs[d.width..])
        case Some(rest) => Some([d.c] + rest)
        case None => None
  }

  /** The hosts' decoders: never fail, and replace each maximal ill-formed subpart with U+FFFD. */
  function DecodeLossy(bs: seq<uint8>): string
    decreases |bs|
  {
    if |bs| == 0 then []
    else
      var d := DecodeFirst(bs);
      [d.c] + DecodeLossy(bs[d.width..])
  }

  /** U+FEFF, the byte-order mark, and its UTF-8 encoding. */
  const Bom: char := '\U{FEFF}'
  const BomBytes: seq<uint8> := [0xEF, 0xBB, 0xBF]

  /** `s` without its first character when that is a byte-order mark. */
  function StripBom(s: string): string
  {
    if |s| > 0 && s[0] == Bom then s[1..] else s
  }

  /** The mark-dropping decoders: skip the three bytes of one leading
      byte-order mark, then decode with replacement. */
  function DecodeLossyBom(bs: seq<uint8>): string
  {
    if |bs| >= 3 && bs[..3] == BomBytes then DecodeLossy(bs[3..]) else DecodeLossy(bs)
  }

  predicate IsAscii(s: string)
  {
    forall i :: 0 <= i < |s| ==> s[i] as int < 0x80
  }

  // ---------------------------------------------------------------------------
  // Round trips

  lemma DecodeFirstOfTwo(c: char, bs: seq<uint8>)
    requires 0x80 <= c as int < 0x800 && |bs| >= 2 && bs[..2] == EncodeChar(c)
    ensures DecodeFirst(bs) == Decoded(c, 2, true)
  {
    var cp := c as int;
    var q, r := cp / 0x40, cp % 0x40;
    assert cp == q * 0x40 + r;
    assert bs[0] == EncodeChar(c)[0] && bs[1] == EncodeChar(c)[1];
    assert bs[0] as int == 0xC0 + q && bs[1] as int == 0x80 + r;
  }

  lemma DecodeFirstOfThree(c: char, bs: seq<uint8>)
    requires 0x800 <= c as int < 0x1_0000 && |bs| >= 3 && bs[..3] == EncodeChar(c)
    ensures DecodeFirst(bs) == Decoded(c, 3, true)
  {
    var cp := c as int;
    var q, r := cp / 0x40, cp % 0x40;
    var q2, r2 := q / 0x40, q % 0x40;
    assert cp == q * 0x40 + r && q == q2 * 0x40 + r2;
    assert q2 == cp / 0x1000;
    assert bs[0] == EncodeChar(c)[0] && bs[1] == EncodeChar(c)[1] && bs[2] == EncodeChar(c)[2];
    assert bs[0] as int == 0xE0 + q2 && bs[1] as int == 0x80 + r2 && bs[2] as int == 0x80 + r;
  }

  lemma DecodeFirstOfFour(c: char, bs: seq<uint8>)
    requires 0x1_0000 <= c as int && |bs| >= 4 && bs[..4] == EncodeChar(c)
    ensures DecodeFirst(bs) == Decoded(c, 4, true)
  {
    var cp := c as int;
    var q, r := cp / 0x40, cp % 0x40;
    var q2, r2 := q / 0x40, q % 0x40;
    var q3, r3 := q2 / 0x40, q2 % 0x40;
    assert cp == q * 0x40 + r && q == q2 * 0x40 + r2 && q2 == q3 * 0x40 + r3;
    assert q2 == cp / 0x1000 && q3 == cp / 0x4_0000;
    assert bs[0] == EncodeChar(c)[0] && bs[1] == EncodeChar(c)[1];
    assert bs[2] == EncodeChar(c)[2] && bs[3] == EncodeChar(c)[3];
    assert bs[0] as int == 0xF0 + q3 && bs[1] as int == 0x80 + r3;
    assert bs[2] as int == 0x80 + r2 && bs[3] as int == 0x80 + r;
  }

  /** Decoding the encoding of one character gives it back and consumes exactly its encoding. */
  lemma DecodeFirstOfEncoding(c: char, rest: seq<uint8>)
    ensures DecodeFirst(EncodeChar(c) + rest) == Decoded(c, |EncodeChar(c)|, true)
  {
    var cp := c as int;
    var e := EncodeChar(c);
    var bs := e + rest;
    assert bs[..|e|] == e;
    if cp < 0x80 {
      assert bs[0] == e[0];
    } else if cp < 0x800 {
      DecodeFirstOfTwo(c, bs);
    } else if cp < 0x1_0000 {
      DecodeFirstOfThree(c, bs);
    } else {
      DecodeFirstOfFour(c, bs);
    }
  }

  lemma EncodingOfTwo(bs: seq<uint8>)
    requires |bs| >= 2 && SequenceLength(bs[0]) == 2 && DecodeFirst(bs).valid
    ensures EncodeChar(DecodeFirst(bs).c) == bs[..2]
  {
    var cp := DecodeFirst(bs).c as int;
    var b0, b1 := bs[0] as int, bs[1] as int;
    assert cp == (b0 - 0xC0) * 0x40 + (b1 - 0x80);
    assert cp / 0x40 == b0 - 0xC0 && cp % 0x40 == b1 - 0x80;
  }

  lemma EncodingOfThree(bs: seq<uint8>)
    requires |bs| >= 3 && SequenceLength(bs[0]) == 3 && DecodeFirst(bs).valid
    ensures EncodeChar(DecodeFirst(bs).c) == bs[..3]
  {
    var cp := DecodeFirst(bs).c as int;
    var b0, b1, b2 := bs[0] as int, bs[1] as int, bs[2] as int;
    var hi := (b0 - 0xE0) * 0x40 + (b1 - 0x80);
    assert cp == hi * 0x40 + (b2 - 0x80);
    assert cp / 0x40 == hi && cp % 0x40 == b2 - 0x80;
    assert hi / 0x40 == b0 - 0xE0 && hi % 0x40 == b1 - 0x80;
    assert cp / 0x1000 == hi / 0x40;
  }

  lemma EncodingOfFour(bs: seq<uint8>)
    requires |bs| >= 4 && SequenceLength(bs[0]) == 4 && DecodeFirst(bs).valid
    ensures EncodeChar(DecodeFirst(bs).c) == bs[..4]
  {
    var cp := DecodeFirst(bs).c as int;
    var b0, b1, b2, b3 := bs[0] as int, bs[1] as int, bs[2] as int, bs[3] as int;
    var top := (b0 - 0xF0) * 0x40 + (b1 - 0x80);
    var hi := top * 0x40 + (b2 - 0x80);
    assert cp == hi * 0x40 + (b3 - 0x80);
    assert cp / 0x40 == hi && cp % 0x40 == b3 - 0x80;
    assert hi / 0x40 == top && hi % 0x40 == b2 - 0x80;
    assert top / 0x40 == b0 - 0xF0 && top % 0x40 == b1 - 0x80;
    assert cp / 0x1000 == hi / 0x40;
    assert cp / 0x4_0000 == top / 0x40;
  }

  /** Every well-formed first sequence is the encoding of the character it decodes to. */
  lemma EncodingOfDecodeFirst(bs: seq<uint8>)
    requires |bs| > 0 && DecodeFirst(bs).valid
    ensures EncodeChar(DecodeFirst(bs).c) == bs[..DecodeFirst(bs).width]
  {
    var n := SequenceLength(bs[0]);
    if n == 2 {
      EncodingOfTwo(bs);
    } else if n == 3 {
      EncodingOfThree(bs);
    } else if n == 4 {
      EncodingOfFour(bs);
    }
  }

  lemma {:induction false} EncodeAppend(a: string, b: string)
    ensures Encode(a + b) == Encode(a) + Encode(b)
  {
    if |a| == 0 {
      assert a + b == b;
    } else {
      assert (a + b)[0] == a[0] && (a + b)[1..] == a[1..] + b;
      EncodeAppend(a[1..], b);
    }
  }

  /** Rust accepts everything the hosts encode, and both decoders give the text back. */
  lemma {:induction false} DecodeEncode(s: string)
    ensures Decode(Encode(s)) == Some(s)
    ensures DecodeLossy(Encode(s)) == s
  {
    if |s| > 0 {
      var e := EncodeChar(s[0]);
      DecodeFirstOfEncoding(s[0], Encode(s[1..]));
      assert (e + Encode(s[1..]))[|e|..] == Encode(s[1..]);
      DecodeEncode(s[1..]);
      assert [s[0]] + s[1..] == s;
    }
  }

  /** Every character takes one to four bytes, and only ASCII takes one. */
  lemma {:induction false} EncodeLength(s: string)
    ensures |s| <= |Encode(s)| <= 4 * |s|
    ensures |Encode(s)| == |s| <==> forall i :: 0 <= i < |s| ==> s[i] as int < 0x80
  {
    if |s| > 0 {
      EncodeLength(s[1..]);
      assert forall i :: 0 < i < |s| ==> s[i] == s[1..][i - 1];
    }
  }

  /** The lossy decoders consume at least one byte per character and produce
      one for every maximal subpart, so the text is never longer than the
      bytes and is empty exactly for empty input. */
  lemma {:induction false} DecodeLossyLength(bs: seq<uint8>)
    ensures |DecodeLossy(bs)| <= |bs|
    ensures |DecodeLossy(bs)| == 0 <==> |bs| == 0
    decreases |bs|
  {
    if |bs| > 0 {
      DecodeLossyLength(bs[DecodeFirst(bs).width..]);
    }
  }

  /** A byte that cannot start a sequence makes `from_utf8` fail, and the
      lossy decoders turn it into one U+FFFD and go on with the next byte. */
  lemma BadLeadRejected(bs: seq<uint8>)
    requires |bs| > 0 && SequenceLength(bs[0]) == 0
    ensures Decode(bs).None?
    ensures DecodeLossy(bs) == [Replacement] + DecodeLossy(bs[1..])
  {
  }

  lemma EncodeCons(c: char, t: string)
    ensures Encode([c] + t) == EncodeChar(c) + Encode(t)
  {
    assert ([c] + t)[1..] == t;
  }

  /** A well-formed input is its first character followed by the decoding of the rest. */
  lemma DecodeCons(bs: seq<uint8>) returns (d: Decoded, rest: seq<uint8>)
    requires |bs| > 0 && Decode(bs).Some?
    ensures d == DecodeFirst(bs) && d.valid && rest == bs[d.width..]
    ensures Decode(rest).Some? && Decode(bs).value == [d.c] + Decode(rest).value
  {
    d := DecodeFirst(bs);
    rest := bs[d.width..];
  }

  /** What `from_utf8` accepts is exactly the encoding of what it returns. */
  lemma {:induction false} EncodeDecode(bs: seq<uint8>)
    requires Decode(bs).Some?
    ensures Encode(Decode(bs).value) == bs
    decreases |bs|
  {
    if |bs| > 0 {
      var d, rest := DecodeCons(bs);
      var t := Decode(rest).value;
      EncodeDecode(rest);
      EncodingOfDecodeFirst(bs);
      EncodeOfSplit(bs, d.c, d.width, t);
    }
  }

  /** Bytes that split into one character's encoding and a text's encoding
      are the encoding of the character followed by the text. */
  lemma EncodeOfSplit(bs: seq<uint8>, c: char, w: nat, t: string)
    requires w <= |bs| && EncodeChar(c) == bs[..w] && Encode(t) == bs[w..]
    ensures Encode([c] + t) == bs
  {
    EncodeCons(c, t);
    assert bs == bs[..w] + bs[w..];
  }

  /** On well-formed input the hosts' decoders and Rust's agree. */
  lemma {:induction false} LossyAgreesOnValid(bs: seq<uint8>)
    requires Decode(bs).Some?
    ensures DecodeLossy(bs) == Decode(bs).value
    decreases |bs|
  {
    if |bs| > 0 {
      LossyAgreesOnValid(bs[DecodeFirst(bs).width..]);
    }
  }

  /** The encoding of ASCII text is one byte per character, the character code. */
  lemma {:induction false} EncodeAscii(s: string)
    requires IsAscii(s)
    ensures |Encode(s)| == |s|
    ensures forall i :: 0 <= i < |s| ==> Encode(s)[i] as int == s[i] as int
  {
    if |s| > 0 {
      EncodeAscii(s[1..]);
    }
  }

  // ---------------------------------------------------------------------------
  // Byte-order marks

  lemma BomEncoding()
    ensures EncodeChar(Bom) == BomBytes
  {
  }

  /** Skipping the mark's three bytes before decoding is the same as dropping
      a decoded leading U+FEFF afterwards: no other byte sequence decodes to
      U+FEFF, and a replacement character is never one. */
  lemma DecodeLossyBomStrips(bs: seq<uint8>)
    ensures DecodeLossyBom(bs) == StripBom(DecodeLossy(bs))
  {
    if |bs| >= 3 && bs[..3] == BomBytes {
      BomEncoding();
      DecodeFirstOfEncoding(Bom, bs[3..]);
      assert bs == EncodeChar(Bom) + bs[3..];
    } else if |bs| > 0 {
      assert DecodeFirst(bs).c != Bom by {
        if DecodeFirst(bs).valid {
          EncodingOfDecodeFirst(bs);
          BomEncoding();
        }
      }
    }
  }

  /** Text a host encodes comes back from a mark-dropping decoder less one
      leading U+FEFF, and unchanged when it does not start with one. */
  lemma DecodeBomEncode(s: string)
    ensures DecodeLossyBom(Encode(s)) == StripBom(s)
    ensures (|s| == 0 || s[0] != Bom) ==> DecodeLossyBom(Encode(s)) == s
  {
    DecodeEncode(s);
    DecodeLossyBomStrips(Encode(s));
  }

  /** On well-formed input the mark-dropping decoders agree with Rust's
      decoder except for one leading U+FEFF. */
  lemma LossyBomAgreesOnValid(bs: seq<uint8>)
    requires Decode(bs).Some?
    ensures DecodeLossyBom(bs) == StripBom(Decode(bs).value)
  {
    LossyAgreesOnValid(bs);
    DecodeLossyBomStrips(bs);
  }

  /** Re-encoding what a mark-dropping decoder read from well-formed bytes
      gives the bytes back, less the three bytes of a leading mark. */
  lemma EncodeDecodeBom(bs: seq<uint8>)
    requires Decode(bs).Some?
    ensures |bs| >= 3 && bs[..3] == BomBytes ==> Encode(DecodeLossyBom(bs)) == bs[3..]
    ensures !(|bs| >= 3 && bs[..3] == BomBytes) ==> Encode(DecodeLossyBom(bs)) == bs
  {
    if |bs| >= 3 && bs[..3] == BomBytes {
      BomEncoding();
      DecodeFirstOfEncoding(Bom, bs[3..]);
      assert bs == EncodeChar(Bom) + bs[3..];
      var d, rest := DecodeCons(bs);
      LossyAgreesOnValid(bs[3..]);
      EncodeDecode(bs[3..]);
    } else {
      LossyAgreesOnValid(bs);
      EncodeDecode(bs);
    }
  }
}

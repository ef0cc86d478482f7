/** UTF-8 (RFC 3629) of strings of Unicode scalar values, and the UTF-16 length JavaScript reports. */
module Utf8 {
  import opened Basics
  import opened Base64

  /** A continuation byte carries six bits. */
  function Tail(bits: Sextet): Byte { 128 + bits }

  predicate IsTail(b: Byte) { 128 <= b < 192 }

  function Bits(b: Byte, mark: int): int { b - mark }

  predicate IsScalar(code: int) {
    0 <= code < 0xD800 || 0xE000 <= code < 0x11_0000
  }

  function EncodeCode(code: int): (b: seq<Byte>)
    requires IsScalar(code)
    ensures 1 <= |b| <= 4
  {
    if code < 0x80 then [code]
    else if code < 0x800 then [192 + code / 64, Tail(code % 64)]
    else if code < 0x1_0000 then [224 + code / 4096, Tail(code / 64 % 64), Tail(code % 64)]
    else [240 + code / 262144, Tail(code / 4096 % 64), Tail(code / 64 % 64), Tail(code % 64)]
  }

  /** How many bytes a code point takes. */
  lemma EncodedLength(code: int)
    requires IsScalar(code)
    ensures |EncodeCode(code)| == if code < 0x80 then 1 else if code < 0x800 then 2 else if code < 0x1_0000 then 3 else 4
  {
  }

  /** The code point at the head of `b` and the number of bytes it takes, if well formed and no longer than needed. */
  function DecodeHead(b: seq<Byte>): (r: Option<(int, nat)>)
    ensures r.Some? ==> IsScalar(r.value.0) && 1 <= r.value.1 <= |b|
  {
    if |b| >= 1 && b[0] < 128 then Some((b[0] as int, 1))
    else if |b| >= 2 && 192 <= b[0] < 224 && IsTail(b[1]) then
      var code := Bits(b[0], 192) * 64 + Bits(b[1], 128);
      if 0x80 <= code then Some((code, 2)) else None
    else if |b| >= 3 && 224 <= b[0] < 240 && IsTail(b[1]) && IsTail(b[2]) then
      var code := Bits(b[0], 224) * 4096 + Bits(b[1], 128) * 64 + Bits(b[2], 128);
      if 0x800 <= code && IsScalar(code) then Some((code, 3)) else None
    else if |b| >= 4 && 240 <= b[0] < 248 && IsTail(b[1]) && IsTail(b[2]) && IsTail(b[3]) then
      var code := Bits(b[0], 240) * 262144 + Bits(b[1], 128) * 4096 + Bits(b[2], 128) * 64 + Bits(b[3], 128);
      if 0x1_0000 <= code && IsScalar(code) then Some((code, 4)) else None
    else None
  }

  lemma SixBits(high: int, low: int)
    requires 0 <= low < 64
    ensures (high * 64 + low) / 64 == high && (high * 64 + low) % 64 == low
  {
  }

  lemma FourParts(x: int, y: int, z: int, w: int)
    requires 0 <= y < 64 && 0 <= z < 64 && 0 <= w < 64
    ensures var code := x * 262144 + y * 4096 + z * 64 + w;
            code / 262144 == x && code / 4096 % 64 == y && code / 64 % 64 == z && code % 64 == w
  {
    var code := x * 262144 + y * 4096 + z * 64 + w;
    SixBits(x * 4096 + y * 64 + z, w);
    SixBits(x * 64 + y, z);
    SixBits(x, y);
    assert code / 4096 == code / 64 / 64 && code / 262144 == code / 4096 / 64;
  }

  /** Whatever is decoded is what its code point is encoded to. */
  lemma HeadIsEncoded(b: seq<Byte>)
    ensures DecodeHead(b).Some? ==> b[..DecodeHead(b).value.1] == EncodeCode(DecodeHead(b).value.0)
  {
    if DecodeHead(b).Some? {
      var n := DecodeHead(b).value.1;
      if n == 2 {
        FourParts(0, 0, Bits(b[0], 192), Bits(b[1], 128));
      } else if n == 3 {
        FourParts(0, Bits(b[0], 224), Bits(b[1], 128), Bits(b[2], 128));
      } else if n == 4 {
        FourParts(Bits(b[0], 240), Bits(b[1], 128), Bits(b[2], 128), Bits(b[3], 128));
      }
    }
  }

  lemma DecodeHeadOfCode(code: int, rest: seq<Byte>)
    requires IsScalar(code)
    ensures DecodeHead(EncodeCode(code) + rest) == Some((code, |EncodeCode(code)|))
  {
    var b := EncodeCode(code) + rest;
    assert forall i :: 0 <= i < |EncodeCode(code)| ==> b[i] == EncodeCode(code)[i];
    assert code / 4096 == code / 64 / 64 && code / 262144 == code / 4096 / 64;
  }

  function Encode(s: string): seq<Byte> {
    if s == "" then [] else EncodeCode(s[0] as int) + Encode(s[1..])
  }

  function Decode(b: seq<Byte>): Option<string>
    decreases |b|
  {
    if b == [] then Some("")
    else
      match DecodeHead(b)
      case None => None
      case Some((code, n)) =>
        match Decode(b[n..])
        case None => None
        case Some(rest) => Some([code as char] + rest)
  }

  lemma {:induction false} DecodeEncode(s: string)
    ensures Decode(Encode(s)) == Some(s)
  {
    if s != "" {
      var first, rest := EncodeCode(s[0] as int), Encode(s[1..]);
      DecodeHeadOfCode(s[0] as int, rest);
      assert (first + rest)[|first|..] == rest;
      DecodeEncode(s[1..]);
      assert s == [s[0]] + s[1..];
    }
  }

  /** Bytes decode to a text exactly when they are its encoding: nothing else, overlong forms included, decodes at all. */
  lemma DecodesIff(b: seq<Byte>, s: string)
    ensures Decode(b) == Some(s) <==> b == Encode(s)
  {
    DecodeEncode(s);
    if Decode(b) == Some(s) { DecodedIsEncoded(b); }
  }

  lemma {:induction false} DecodedIsEncoded(b: seq<Byte>)
    requires Decode(b).Some?
    ensures Encode(Decode(b).value) == b
    decreases |b|
  {
    if b != [] {
      HeadIsEncoded(b);
      var (code, n) := DecodeHead(b).value;
      hide EncodeCode, DecodeHead;
      DecodedIsEncoded(b[n..]);
      var rest := Decode(b[n..]).value;
      assert Decode(b).value == [code as char] + rest;
      hide Decode;
      EncodeOneMore(code as char, rest);
      assert b == b[..n] + b[n..];
    }
  }

  lemma EncodeOneMore(c: char, rest: string)
    ensures Encode([c] + rest) == EncodeCode(c as int) + Encode(rest)
  {
    assert ([c] + rest)[1..] == rest;
  }

  /** `Buffer.byteLength(s, "utf8")`. */
  function ByteLength(s: string): nat {
    |Encode(s)|
  }

  /** The UTF-16 code units of a character and of a text (section 2.1 of RFC 2781). */
  function Units(c: char): seq<int> {
    var code := c as int;
    if code < 0x1_0000 then [code] else [0xD800 + (code - 0x1_0000) / 0x400, 0xDC00 + (code - 0x1_0000) % 0x400]
  }

  function Utf16(s: string): seq<int> {
    if s == "" then [] else Units(s[0]) + Utf16(s[1..])
  }

  /** The `length` of the JavaScript string. */
  function Utf16Length(s: string): nat {
    |Utf16(s)|
  }

  lemma {:induction false} AsciiLengths(s: string)
    requires forall i :: 0 <= i < |s| ==> s[i] as int < 128
    ensures ByteLength(s) == |s| && Utf16Length(s) == |s|
  {
    if s != "" { AsciiLengths(s[1..]); }
  }
}

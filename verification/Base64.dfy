/**
 * Base64 of byte strings with the standard alphabet and padding (section 4 of RFC 4648), and base64url
 * without padding (section 5), as Node's Buffer prints them, with a decoder for each.
 */
module Base64 {
  import opened Basics

  type Byte = x: int | 0 <= x < 256
  type Sextet = x: int | 0 <= x < 64

  /** The two spellings in use: standard with `=` padding, and URL-safe without. */
  datatype Variant = Standard | Url

  /** The ASCII code of a digit: A-Z, a-z, 0-9, then `+/` or `-_`. */
  function CodeOf(v: Variant, x: Sextet): (code: int)
    ensures 0 <= code < 128 && code != 61
  {
    if x < 26 then 65 + x
    else if x < 52 then 71 + x
    else if x < 62 then x - 4
    else if x == 62 then (if v.Standard? then 43 else 45)
    else if v.Standard? then 47 else 95
  }

  function SextetOf(v: Variant, code: int): Option<Sextet> {
    if 65 <= code <= 90 then Some(code - 65)
    else if 97 <= code <= 122 then Some(code - 71)
    else if 48 <= code <= 57 then Some(code + 4)
    else if code == (if v.Standard? then 43 else 45) then Some(62)
    else if code == (if v.Standard? then 47 else 95) then Some(63)
    else None
  }

  function CharOf(v: Variant, x: Sextet): char {
    CodeOf(v, x) as char
  }

  function ValueOf(v: Variant, c: char): Option<Sextet> {
    SextetOf(v, c as int)
  }

  lemma CodeOfSextet(v: Variant, x: Sextet)
    ensures SextetOf(v, CodeOf(v, x)) == Some(x)
  {
  }

  lemma SextetOfCode(v: Variant, code: int)
    ensures SextetOf(v, code).Some? ==> CodeOf(v, SextetOf(v, code).value) == code
  {
  }

  lemma ValueOfChar(v: Variant, x: Sextet)
    ensures ValueOf(v, CharOf(v, x)) == Some(x) && CharOf(v, x) != '='
  {
    CodeOfSextet(v, x);
  }

  lemma CharOfValue(v: Variant, c: char)
    ensures ValueOf(v, c).Some? ==> CharOf(v, ValueOf(v, c).value) == c
  {
    SextetOfCode(v, c as int);
  }

  // ----- bytes and sextets -----

  function SextetA(p: Byte): Sextet { p / 4 }
  function SextetB(p: Byte, q: Byte): Sextet { p % 4 * 16 + q / 16 }
  function SextetC(q: Byte, r: Byte): Sextet { q % 16 * 4 + r / 64 }
  function SextetD(r: Byte): Sextet { r % 64 }

  function ByteA(a: Sextet, b: Sextet): Byte { a * 4 + b / 16 }
  function ByteB(b: Sextet, c: Sextet): Byte { b % 16 * 16 + c / 4 }
  function ByteC(c: Sextet, d: Sextet): Byte { c % 4 * 64 + d }

  function Split(p: Byte, q: Byte, r: Byte): (x: seq<Sextet>)
    ensures |x| == 4
  {
    [SextetA(p), SextetB(p, q), SextetC(q, r), SextetD(r)]
  }

  function Join(a: Sextet, b: Sextet, c: Sextet, d: Sextet): (y: seq<Byte>)
    ensures |y| == 3
  {
    [ByteA(a, b), ByteB(b, c), ByteC(c, d)]
  }

  /** The bits of `b` in groups of six, the last group filled up with zero bits. */
  function Sextets(b: seq<Byte>): seq<Sextet> {
    if |b| == 0 then []
    else if |b| == 1 then Split(b[0], 0, 0)[..2]
    else if |b| == 2 then Split(b[0], b[1], 0)[..3]
    else Split(b[0], b[1], b[2]) + Sextets(b[3..])
  }

  /** The whole bytes in `x`; bits that fill no byte are dropped, as Node drops them. */
  function Bytes(x: seq<Sextet>): seq<Byte> {
    if |x| < 2 then []
    else if |x| == 2 then Join(x[0], x[1], 0, 0)[..1]
    else if |x| == 3 then Join(x[0], x[1], x[2], 0)[..2]
    else Join(x[0], x[1], x[2], x[3]) + Bytes(x[4..])
  }

  lemma ByteAOfSextets(p: Byte, q: Byte)
    ensures ByteA(SextetA(p), SextetB(p, q)) == p
  {
  }

  lemma ByteBOfSextets(p: Byte, q: Byte, r: Byte)
    ensures ByteB(SextetB(p, q), SextetC(q, r)) == q
  {
    var high, low := p % 4, r / 64;
    assert (high * 16 + q / 16) % 16 == q / 16;
    assert (q % 16 * 4 + low) / 4 == q % 16;
  }

  lemma ByteCOfSextets(q: Byte, r: Byte)
    ensures ByteC(SextetC(q, r), SextetD(r)) == r
  {
    var high := q % 16;
    assert (high * 4 + r / 64) % 4 == r / 64;
  }

  lemma SextetAOfBytes(a: Sextet, b: Sextet)
    ensures SextetA(ByteA(a, b)) == a
  {
  }

  lemma SextetDOfBytes(c: Sextet, d: Sextet)
    ensures SextetD(ByteC(c, d)) == d
  {
  }

  lemma SextetBOfBytes(a: Sextet, b: Sextet, c: Sextet)
    ensures SextetB(ByteA(a, b), ByteB(b, c)) == b
    ensures SextetB(ByteA(a, b), 0) == b / 16 * 16
  {
    var low := c / 4;
    assert (a * 4 + b / 16) % 4 == b / 16;
    assert (b % 16 * 16 + low) / 16 == b % 16;
  }

  lemma SextetCOfBytes(b: Sextet, c: Sextet, d: Sextet)
    ensures SextetC(ByteB(b, c), ByteC(c, d)) == c
    ensures SextetC(ByteB(b, c), 0) == c / 4 * 4
  {
    var high := b % 16;
    assert (high * 16 + c / 4) % 16 == c / 4;
    assert (c % 4 * 64 + d) / 64 == c % 4;
  }

  lemma {:induction false} BytesOfSextets(b: seq<Byte>)
    ensures Bytes(Sextets(b)) == b
  {
    hide SextetA, SextetB, SextetC, SextetD, ByteA, ByteB, ByteC;
    if |b| == 1 {
      ByteAOfSextets(b[0], 0);
    } else if |b| == 2 {
      ByteAOfSextets(b[0], b[1]);
      ByteBOfSextets(b[0], b[1], 0);
    } else if |b| >= 3 {
      ByteAOfSextets(b[0], b[1]);
      ByteBOfSextets(b[0], b[1], b[2]);
      ByteCOfSextets(b[1], b[2]);
      var rest := Sextets(b[3..]);
      assert (Split(b[0], b[1], b[2]) + rest)[4..] == rest;
      BytesOfSextets(b[3..]);
      assert b == [b[0], b[1], b[2]] + b[3..];
    }
  }

  /** The bits left over in the last sextet are zero (section 3.5 of RFC 4648). */
  predicate NoStrayBits(x: seq<Sextet>) {
    && |x| % 4 != 1
    && (|x| % 4 == 2 ==> x[|x| - 1] % 16 == 0)
    && (|x| % 4 == 3 ==> x[|x| - 1] % 4 == 0)
  }

  lemma TwoSextets(a: Sextet, b: Sextet)
    ensures Sextets(Bytes([a, b])) == [a, b] <==> NoStrayBits([a, b])
  {
    hide SextetA, SextetB, SextetC, SextetD, ByteA, ByteB, ByteC;
    SextetAOfBytes(a, b);
    SextetBOfBytes(a, b, 0);
    assert Bytes([a, b]) == [ByteA(a, b)];
    assert Sextets(Bytes([a, b])) == [a, b / 16 * 16];
  }

  lemma ThreeSextets(a: Sextet, b: Sextet, c: Sextet)
    ensures Sextets(Bytes([a, b, c])) == [a, b, c] <==> NoStrayBits([a, b, c])
  {
    hide SextetA, SextetB, SextetC, SextetD, ByteA, ByteB, ByteC;
    SextetAOfBytes(a, b);
    SextetBOfBytes(a, b, c);
    SextetCOfBytes(b, c, 0);
    assert Bytes([a, b, c]) == [ByteA(a, b), ByteB(b, c)];
    assert Sextets(Bytes([a, b, c])) == [a, b, c / 4 * 4];
  }

  lemma SextetsOfGroup(y: seq<Byte>, rest: seq<Byte>)
    requires |y| == 3
    ensures Sextets(y + rest) == Split(y[0], y[1], y[2]) + Sextets(rest)
  {
    hide Split;
    assert (y + rest)[3..] == rest;
  }

  lemma BytesOfGroup(x: seq<Sextet>)
    requires |x| >= 4
    ensures Bytes(x) == Join(x[0], x[1], x[2], x[3]) + Bytes(x[4..])
  {
    hide Join;
  }

  lemma SplitOfJoin(a: Sextet, b: Sextet, c: Sextet, d: Sextet)
    ensures var y := Join(a, b, c, d); Split(y[0], y[1], y[2]) == [a, b, c, d]
  {
    hide SextetA, SextetB, SextetC, SextetD, ByteA, ByteB, ByteC;
    SextetAOfBytes(a, b);
    SextetBOfBytes(a, b, c);
    SextetCOfBytes(b, c, d);
    SextetDOfBytes(c, d);
  }

  lemma LongSextetsOfBytes(x: seq<Sextet>)
    requires |x| >= 4
    requires Sextets(Bytes(x[4..])) == x[4..] <==> NoStrayBits(x[4..])
    ensures Sextets(Bytes(x)) == x <==> NoStrayBits(x)
  {
    hide Sextets, Bytes, Split, Join, NoStrayBits;
    var group, rest := [x[0], x[1], x[2], x[3]], x[4..];
    assert x == group + rest;
    BytesOfGroup(x);
    SextetsOfGroup(Join(x[0], x[1], x[2], x[3]), Bytes(rest));
    SplitOfJoin(x[0], x[1], x[2], x[3]);
    StrayBitsAreLast(group, rest);
    var back := Sextets(Bytes(rest));
    assert (group + back)[4..] == back && (group + rest)[4..] == rest;
  }

  lemma StrayBitsAreLast(group: seq<Sextet>, rest: seq<Sextet>)
    requires |group| == 4
    ensures NoStrayBits(group + rest) <==> NoStrayBits(rest)
  {
    if |rest| > 0 { assert (group + rest)[|group + rest| - 1] == rest[|rest| - 1]; }
  }

  /** Exactly the sequences without stray bits come back unchanged from their bytes. */
  lemma {:induction false} SextetsOfBytes(x: seq<Sextet>)
    ensures Sextets(Bytes(x)) == x <==> NoStrayBits(x)
  {
    hide SextetA, SextetB, SextetC, SextetD, ByteA, ByteB, ByteC;
    if |x| >= 4 {
      SextetsOfBytes(x[4..]);
      LongSextetsOfBytes(x);
    } else if |x| == 3 {
      ThreeSextets(x[0], x[1], x[2]);
      assert x == [x[0], x[1], x[2]];
    } else if |x| == 2 {
      TwoSextets(x[0], x[1]);
      assert x == [x[0], x[1]];
    } else {
      assert Bytes(x) == [];
    }
  }

  // ----- text -----

  function Chars(v: Variant, x: seq<Sextet>): string {
    seq(|x|, i requires 0 <= i < |x| => CharOf(v, x[i]))
  }

  predicate InAlphabet(v: Variant, s: string) {
    forall i :: 0 <= i < |s| ==> ValueOf(v, s[i]).Some?
  }

  function Values(v: Variant, s: string): seq<Sextet>
    requires InAlphabet(v, s)
  {
    seq(|s|, i requires 0 <= i < |s| => ValueOf(v, s[i]).value)
  }

  lemma ValuesOfChars(v: Variant, x: seq<Sextet>)
    ensures InAlphabet(v, Chars(v, x)) && Values(v, Chars(v, x)) == x && '=' !in Chars(v, x)
  {
    forall i | 0 <= i < |x| ensures ValueOf(v, Chars(v, x)[i]) == Some(x[i]) && Chars(v, x)[i] != '=' {
      ValueOfChar(v, x[i]);
    }
  }

  lemma CharsOfValues(v: Variant, s: string)
    requires InAlphabet(v, s)
    ensures Chars(v, Values(v, s)) == s
  {
    forall i | 0 <= i < |s| ensures Chars(v, Values(v, s))[i] == s[i] {
      CharOfValue(v, s[i]);
    }
  }

  function Padding(v: Variant, n: nat): string {
    if v.Url? || n % 4 == 0 then ""
    else if n % 4 == 2 then "=="
    else "="
  }

  function Encode(v: Variant, b: seq<Byte>): string {
    Chars(v, Sextets(b)) + Padding(v, |Sextets(b)|)
  }

  /** The text without its padding: at most two trailing `=`, and none at all in the URL variant. */
  function Unpadded(v: Variant, s: string): string {
    if v.Url? then s
    else if |s| >= 2 && s[|s| - 1] == '=' && s[|s| - 2] == '=' then s[..|s| - 2]
    else if |s| >= 1 && s[|s| - 1] == '=' then s[..|s| - 1]
    else s
  }

  /** Well-formed text: the alphabet, then exactly the padding its length calls for. */
  predicate WellFormed(v: Variant, s: string) {
    var body := Unpadded(v, s);
    InAlphabet(v, body) && |body| % 4 != 1 && s == body + Padding(v, |body|)
  }

  function Decode(v: Variant, s: string): Option<seq<Byte>> {
    if WellFormed(v, s) then Some(Bytes(Values(v, Unpadded(v, s)))) else None
  }

  lemma UnpaddedChars(v: Variant, body: string, n: nat)
    requires '=' !in body
    ensures Unpadded(v, body + Padding(v, n)) == body
  {
    var s := body + Padding(v, n);
    if |body| > 0 { assert body[|body| - 1] in body; }
    assert s[..|body|] == body;
  }

  lemma {:induction false} SextetCount(b: seq<Byte>)
    ensures |Sextets(b)| == (4 * |b| + 2) / 3
  {
    if |b| >= 3 { SextetCount(b[3..]); }
  }

  lemma DecodeChars(v: Variant, x: seq<Sextet>)
    requires |x| % 4 != 1
    ensures Decode(v, Chars(v, x) + Padding(v, |x|)) == Some(Bytes(x))
  {
    ValuesOfChars(v, x);
    UnpaddedChars(v, Chars(v, x), |x|);
  }

  /** Decoding an encoding gives the bytes back, for every byte string and both variants. */
  lemma DecodeEncode(v: Variant, b: seq<Byte>)
    ensures Decode(v, Encode(v, b)) == Some(b)
  {
    SextetCount(b);
    DecodeChars(v, Sextets(b));
    BytesOfSextets(b);
  }

  /** A text is the encoding of what it decodes to exactly when it is well formed and has no stray bits. */
  lemma EncodeDecode(v: Variant, s: string)
    ensures (Decode(v, s).Some? && Encode(v, Decode(v, s).value) == s)
       <==> (WellFormed(v, s) && NoStrayBits(Values(v, Unpadded(v, s))))
  {
    if WellFormed(v, s) {
      var body := Unpadded(v, s);
      var x := Values(v, body);
      SextetsOfBytes(x);
      CharsOfValues(v, body);
      var y := Sextets(Bytes(x));
      if Encode(v, Bytes(x)) == s {
        ValuesOfChars(v, y);
        UnpaddedChars(v, Chars(v, y), |y|);
      }
    }
  }
}

/** Payment memos. */
module Memo {
  // Payment memos: the `MP:<code>` text form and 32-byte hash memos in base64 (src/lib/memo.ts).

  import opened Basics
  import Base64
  import Utf8

  // ----- MP:<code> -----

  const ALPHABET := "ABCDEFGHJKLMNPQRSTUVWXYZ23456789"
  const MP_PREFIX := "MP:"
  const MAX_MEMO_BYTES := 28
  const MIN_MEMO_LENGTH := |MP_PREFIX| + 1

  predicate IsCodeChar(c: char) {
    c in ALPHABET
  }

  /** `VALID_CODE_RE`: one or more characters of the alphabet. */
  predicate IsValidMemoCode(code: string) {
    |code| > 0 && forall i :: 0 <= i < |code| ==> IsCodeChar(code[i])
  }

  datatype ParseFailure = Empty | TooShort | NoPrefix | TooLong | NoCode | InvalidCharacters
  datatype ParseResult = Parsed(code: string, memo: string) | NotParsed(failure: ParseFailure)

  function ParseMemo(raw: string): ParseResult {
    if Utf8.Utf16Length(raw) == 0 then NotParsed(Empty)
    else if Utf8.Utf16Length(raw) < MIN_MEMO_LENGTH then NotParsed(TooShort)
    else if !(MP_PREFIX <= raw) then NotParsed(NoPrefix)
    else if Utf8.ByteLength(raw) > MAX_MEMO_BYTES then NotParsed(TooLong)
    else
      var code := raw[|MP_PREFIX|..];
      if |code| == 0 then NotParsed(NoCode)
      else if !IsValidMemoCode(code) then NotParsed(InvalidCharacters)
      else Parsed(code, raw)
  }

  /** The text that refers to a code. */
  function Reference(code: string): string {
    MP_PREFIX + code
  }

  /** The memo written on chain, cut off at the limit (`memoText` in src/services/stellar.ts). */
  function MemoText(code: string): (memo: string)
    ensures memo <= "MP:" + code && |memo| <= 28 && (|memo| < 28 ==> memo == "MP:" + code)
  {
    if |Reference(code)| > MAX_MEMO_BYTES then Reference(code)[..MAX_MEMO_BYTES] else Reference(code)
  }

  /** A code that a text memo can carry: letters and digits of the alphabet, within the 28 bytes. */
  predicate Carriable(code: string) {
    IsValidMemoCode(code) && |code| <= MAX_MEMO_BYTES - |MP_PREFIX|
  }

  /** Codes of 1 to 25 capitals and digits, without the letters I and O and the digits 0 and 1. */
  lemma CarriableIff(code: string)
    ensures Carriable(code) <==> 1 <= |code| <= 25 && forall i :: 0 <= i < |code| ==> IsUnmistakable(code[i])
  {
    forall i | 0 <= i < |code| ensures IsCodeChar(code[i]) <==> IsUnmistakable(code[i]) { CodeChars(code[i]); }
  }

  predicate IsUnmistakable(c: char) {
    ('A' <= c <= 'Z' && c != 'I' && c != 'O') || '2' <= c <= '9'
  }

  lemma AlphabetAt(i: nat)
    requires i < |ALPHABET|
    ensures |ALPHABET| == 32
    ensures ALPHABET[i] as int == i + if i < 8 then 65 else if i < 13 then 66 else if i < 24 then 67 else 26
  {
  }

  lemma CodeChars(c: char)
    ensures IsCodeChar(c) <==> IsUnmistakable(c)
  {
    var code := c as int;
    var i := code - if code < 65 then 26 else if code < 73 then 65 else if code < 79 then 66 else 67;
    if IsUnmistakable(c) {
      AlphabetAt(i);
      assert ALPHABET[i] == c;
    }
    if IsCodeChar(c) {
      var j :| 0 <= j < |ALPHABET| && ALPHABET[j] == c;
      AlphabetAt(j);
    }
  }

  lemma AlphabetIsAscii(c: char)
    requires IsCodeChar(c)
    ensures c as int < 128
  {
  }

  lemma LengthsOfReference(code: string)
    requires IsValidMemoCode(code)
    ensures Utf8.ByteLength(Reference(code)) == Utf8.Utf16Length(Reference(code)) == |code| + 3
  {
    var memo := Reference(code);
    forall i | 0 <= i < |memo| ensures memo[i] as int < 128 {
      if i >= 3 {
        assert memo[i] == code[i - 3];
        AlphabetIsAscii(memo[i]);
      }
    }
    Utf8.AsciiLengths(memo);
  }

  /** Parsing is the inverse of printing: a text parses to a code exactly when it is that code's reference. */
  lemma ParseInvertsPrint(raw: string, code: string)
    ensures ParseMemo(raw) == Parsed(code, raw) <==> raw == Reference(code) && Carriable(code)
  {
    if MP_PREFIX <= raw {
      assert raw == MP_PREFIX + raw[|MP_PREFIX|..];
      if IsValidMemoCode(raw[|MP_PREFIX|..]) { LengthsOfReference(raw[|MP_PREFIX|..]); }
    }
    if raw == Reference(code) { assert raw[|MP_PREFIX|..] == code; }
  }

  lemma {:induction false} LengthIsAtLeast(s: string)
    ensures Utf8.Utf16Length(s) >= |s|
  {
    if s != "" { LengthIsAtLeast(s[1..]); }
  }

  lemma OneMoreUnit(c: char, s: string)
    requires c as int < 0x1_0000
    ensures Utf8.Utf16Length([c] + s) == 1 + Utf8.Utf16Length(s)
  {
    assert ([c] + s)[1..] == s;
  }

  lemma PrefixLength(s: string)
    ensures Utf8.Utf16Length("MP:" + s) == 3 + Utf8.Utf16Length(s)
  {
    OneMoreUnit(':', s);
    OneMoreUnit('P', ":" + s);
    OneMoreUnit('M', "P" + (":" + s));
    assert "MP:" + s == "M" + ("P" + (":" + s));
  }

  /**
   * Why a text is no reference, from the text alone: without the prefix it is empty, too short or not prefixed, with
   * the prefix it is too short without a code, too long above 28 bytes, and otherwise has a character no code has.
   */
  lemma FailuresAreExact(raw: string)
    ensures !("MP:" <= raw) ==>
      ParseMemo(raw) == NotParsed(if raw == "" then Empty else if Utf8.Utf16Length(raw) <= 3 then TooShort else NoPrefix)
    ensures "MP:" <= raw ==>
      var code := raw[3..];
      ParseMemo(raw) ==
        if code == "" then NotParsed(TooShort)
        else if Utf8.ByteLength(raw) > 28 then NotParsed(TooLong)
        else if exists i :: 0 <= i < |code| && !IsUnmistakable(code[i]) then NotParsed(InvalidCharacters)
        else Parsed(code, raw)
  {
    LengthIsAtLeast(raw);
    if "MP:" <= raw {
      var code := raw[3..];
      assert raw == "MP:" + code;
      PrefixLength(code);
      LengthIsAtLeast(code);
      forall i | 0 <= i < |code| ensures IsCodeChar(code[i]) <==> IsUnmistakable(code[i]) { CodeChars(code[i]); }
    }
    hide Utf8.ByteLength, IsCodeChar, IsUnmistakable;
  }

  /** The test for an empty code never fires: a memo that long with the prefix has something after it. */
  lemma NoCodeIsUnreachable(raw: string)
    ensures ParseMemo(raw) != NotParsed(NoCode)
  {
    if MP_PREFIX <= raw && |raw| == |MP_PREFIX| {
      assert raw == MP_PREFIX;
      Utf8.AsciiLengths(raw);
    }
  }

  // ----- hash memos -----

  const MEMO_HASH_BYTES := 32

  predicate IsBase64Char(c: char) {
    Base64.ValueOf(Base64.Standard, c).Some?
  }

  /** The optional last group of `BASE64_RE`. */
  predicate IsPaddedGroup(s: string) {
    && |s| == 4 && IsBase64Char(s[0]) && IsBase64Char(s[1]) && s[3] == '='
    && (s[2] == '=' || IsBase64Char(s[2]))
  }

  predicate MatchesBase64(s: string) {
    || s == ""
    || IsPaddedGroup(s)
    || (&& |s| >= 4 && IsBase64Char(s[0]) && IsBase64Char(s[1]) && IsBase64Char(s[2]) && IsBase64Char(s[3])
        && MatchesBase64(s[4..]))
  }

  /** On text that matches, `Buffer.from(value, "base64")` is the standard's decoding (see MatchIsWellFormed). */
  predicate IsValidHashMemo(value: string) {
    && MatchesBase64(value)
    && var bytes := Base64.Decode(Base64.Standard, value);
       bytes.Some? && |bytes.value| == MEMO_HASH_BYTES && Base64.Encode(Base64.Standard, bytes.value) == value
  }

  lemma WellFormedGroups(s: string)
    requires |s| > 4 && |s| % 4 == 0
    ensures Base64.WellFormed(Base64.Standard, s) <==>
              Base64.InAlphabet(Base64.Standard, s[..4]) && Base64.WellFormed(Base64.Standard, s[4..])
  {
    var head, tail := s[..4], s[4..];
    var body, rest := Base64.Unpadded(Base64.Standard, s), Base64.Unpadded(Base64.Standard, tail);
    assert s == head + tail;
    assert body == head + rest;
    var pad := Base64.Padding(Base64.Standard, |rest|);
    assert pad == Base64.Padding(Base64.Standard, |body|);
    AlphabetConcat(head, rest);
    hide Base64.ValueOf, Base64.Unpadded, Base64.Padding, Base64.InAlphabet;
    assert body + pad == head + (rest + pad);
    assert (head + (rest + pad))[4..] == rest + pad;
  }

  lemma AlphabetConcat(a: string, b: string)
    ensures Base64.InAlphabet(Base64.Standard, a + b) <==> Base64.InAlphabet(Base64.Standard, a) && Base64.InAlphabet(Base64.Standard, b)
  {
    hide Base64.ValueOf;
    assert forall i :: 0 <= i < |a| ==> a[i] == (a + b)[i];
    assert forall i :: 0 <= i < |b| ==> b[i] == (a + b)[i + |a|];
  }

  lemma WellFormedLast(s: string)
    requires |s| == 4
    ensures Base64.WellFormed(Base64.Standard, s) <==> MatchesBase64(s)
  {
    var body := Base64.Unpadded(Base64.Standard, s);
    assert s[4..] == "";
    if body == s {
      assert Base64.InAlphabet(Base64.Standard, s) <==> (forall i :: 0 <= i < 4 ==> IsBase64Char(s[i]));
    } else {
      assert forall i :: 0 <= i < |body| ==> body[i] == s[i];
      assert s == [s[0], s[1], s[2], s[3]];
    }
  }

  lemma WellFormedLength(s: string)
    requires Base64.WellFormed(Base64.Standard, s)
    ensures |s| % 4 == 0
  {
    var body := Base64.Unpadded(Base64.Standard, s);
    hide Base64.ValueOf, Base64.InAlphabet, Base64.Unpadded;
    assert |s| == |body| + |Base64.Padding(Base64.Standard, |body|)|;
    PaddedLength(|body|);
  }

  lemma PaddedLength(n: nat)
    requires n % 4 != 1
    ensures (n + |Base64.Padding(Base64.Standard, n)|) % 4 == 0
  {
  }

  lemma FirstGroup(s: string)
    requires |s| > 4
    ensures MatchesBase64(s) <==> Base64.InAlphabet(Base64.Standard, s[..4]) && MatchesBase64(s[4..])
  {
    hide Base64.ValueOf;
    var head := s[..4];
    assert forall i :: 0 <= i < 4 ==> head[i] == s[i];
    assert Base64.InAlphabet(Base64.Standard, head) <==>
             IsBase64Char(head[0]) && IsBase64Char(head[1]) && IsBase64Char(head[2]) && IsBase64Char(head[3]);
  }

  lemma ShortTexts(s: string)
    requires |s| < 4
    ensures MatchesBase64(s) <==> s == ""
    ensures s == "" ==> Base64.WellFormed(Base64.Standard, s)
  {
  }

  /** The regular expression accepts exactly the well-formed base64 texts. */
  lemma {:induction false} MatchIsWellFormed(s: string)
    ensures MatchesBase64(s) <==> Base64.WellFormed(Base64.Standard, s)
    ensures MatchesBase64(s) ==> |s| % 4 == 0
  {
    hide MatchesBase64, Base64.WellFormed, IsBase64Char, Base64.InAlphabet;
    if Base64.WellFormed(Base64.Standard, s) { WellFormedLength(s); }
    if |s| > 4 {
      FirstGroup(s);
      MatchIsWellFormed(s[4..]);
      if |s| % 4 == 0 { WellFormedGroups(s); }
    } else if |s| == 4 {
      WellFormedLast(s);
    } else {
      ShortTexts(s);
    }
  }

  /** A text is a valid hash memo exactly when it is the encoding of some 32 bytes. */
  lemma ValidHashMemoIff(value: string)
    ensures IsValidHashMemo(value) <==>
              exists b: seq<Base64.Byte> :: |b| == MEMO_HASH_BYTES && Base64.Encode(Base64.Standard, b) == value
  {
    MatchIsWellFormed(value);
    forall b: seq<Base64.Byte> | |b| == MEMO_HASH_BYTES && Base64.Encode(Base64.Standard, b) == value
      ensures IsValidHashMemo(value)
    {
      Base64.DecodeEncode(Base64.Standard, b);
    }
  }

  // the characters of a 32-byte encoding: 42 that are free, one whose low two bits are zero, and the padding
  predicate HasHashShape(value: string) {
    && |value| == 44
    && value[43] == '='
    && Base64.InAlphabet(Base64.Standard, value[..43])
    && Base64.ValueOf(Base64.Standard, value[42]).value % 4 == 0
  }

  lemma HashLength(b: seq<Base64.Byte>)
    ensures var n := |Base64.Sextets(b)|;
            |b| == MEMO_HASH_BYTES <==> n == 43
  {
    Base64.SextetCount(b);
  }

  lemma HashShapeBody(value: string)
    requires HasHashShape(value)
    ensures Base64.Unpadded(Base64.Standard, value) == value[..43] && Base64.WellFormed(Base64.Standard, value)
    ensures Base64.NoStrayBits(Base64.Values(Base64.Standard, value[..43]))
  {
    assert value[..43][42] == value[42];
    assert value == value[..43] + "=";
    assert Base64.ValueOf(Base64.Standard, value[42]).Some?;
  }

  lemma EncodedHashShape(b: seq<Base64.Byte>)
    requires |b| == MEMO_HASH_BYTES
    ensures HasHashShape(Base64.Encode(Base64.Standard, b))
  {
    hide Base64.ValueOf, Base64.CharOf, Base64.Sextets, Base64.Bytes, Base64.Chars;
    var x, value := Base64.Sextets(b), Base64.Encode(Base64.Standard, b);
    HashLength(b);
    Base64.ValuesOfChars(Base64.Standard, x);
    Base64.BytesOfSextets(b);
    Base64.SextetsOfBytes(x);
    assert value == Base64.Chars(Base64.Standard, x) + "=";
    assert value[..43] == Base64.Chars(Base64.Standard, x);
    assert value[42] == value[..43][42];
    assert Base64.Values(Base64.Standard, value[..43])[42] == x[42];
  }

  lemma ShapedIsEncoded(value: string)
    requires HasHashShape(value)
    ensures exists b: seq<Base64.Byte> :: |b| == MEMO_HASH_BYTES && Base64.Encode(Base64.Standard, b) == value
  {
    HashShapeBody(value);
    Base64.EncodeDecode(Base64.Standard, value);
    var b := Base64.Decode(Base64.Standard, value).value;
    Base64.SextetsOfBytes(Base64.Values(Base64.Standard, value[..43]));
    HashLength(b);
  }

  /** What the check looks at, character by character: the length, the alphabet, the padding, and no stray bits. */
  lemma ValidHashMemoShape(value: string)
    ensures IsValidHashMemo(value) <==> HasHashShape(value)
  {
    ValidHashMemoIff(value);
    if IsValidHashMemo(value) {
      var b: seq<Base64.Byte> :| |b| == MEMO_HASH_BYTES && Base64.Encode(Base64.Standard, b) == value;
      EncodedHashShape(b);
    } else if HasHashShape(value) {
      ShapedIsEncoded(value);
    }
  }

  // ----- attributing a payment -----

  /** The memo fields Horizon reports; either may be absent. */
  datatype OnChainMemo = OnChainMemo(memoType: Option<string>, memo: Option<string>)

  datatype Reason =
    | MissingMemo
    | UnsupportedMemoType
    | InvalidHashMemo
    | HashMemoMismatch
    | MalformedMemo(failure: ParseFailure)
    | CodeMismatch

  datatype Validation = Attributed(code: string, memo: string) | Refused(reason: Reason)

  function ValidatePaymentMemo(onChain: OnChainMemo, expectedCode: string): Validation {
    var memoType := if onChain.memoType.Some? then onChain.memoType.value else "none";
    var memo := if onChain.memo.Some? then onChain.memo.value else "";
    if memoType == "none" then Refused(MissingMemo)
    else if memoType == "hash" then (if !IsValidHashMemo(memo) then Refused(InvalidHashMemo) else Refused(HashMemoMismatch))
    else if memoType != "text" then Refused(UnsupportedMemoType)
    else if Utf8.Utf16Length(memo) == 0 then Refused(MissingMemo)
    else
      match ParseMemo(memo)
      case NotParsed(failure) => Refused(MalformedMemo(failure))
      case Parsed(code, text) => if code != expectedCode then Refused(CodeMismatch) else Attributed(code, text)
  }

  /** A payment is attributed to a code exactly when it has a text memo that is the code's reference. */
  lemma AttributedIff(onChain: OnChainMemo, expectedCode: string)
    ensures ValidatePaymentMemo(onChain, expectedCode).Attributed? <==>
              onChain.memoType == Some("text") && onChain.memo == Some(Reference(expectedCode)) && Carriable(expectedCode)
    ensures ValidatePaymentMemo(onChain, expectedCode).Attributed? ==>
              ValidatePaymentMemo(onChain, expectedCode) == Attributed(expectedCode, Reference(expectedCode))
  {
    if onChain.memo.Some? {
      var memo := onChain.memo.value;
      ParseInvertsPrint(memo, expectedCode);
      if memo == Reference(expectedCode) { assert memo[0] == 'M'; }
    }
  }

  lemma ReferencesDiffer(code: string, other: string)
    ensures Reference(code) == Reference(other) <==> code == other
  {
    assert Reference(code)[3..] == code && Reference(other)[3..] == other;
  }

  /** One on-chain memo is attributed to at most one code. */
  lemma AtMostOneCode(onChain: OnChainMemo, code: string, other: string)
    requires ValidatePaymentMemo(onChain, code).Attributed? && ValidatePaymentMemo(onChain, other).Attributed?
    ensures code == other
  {
    AttributedIff(onChain, code);
    AttributedIff(onChain, other);
    ReferencesDiffer(code, other);
  }

  /** A payment carrying the memo written for a code is attributed to it exactly when the code fits in a memo. */
  lemma WrittenMemoIsAttributedIff(code: string)
    ensures ValidatePaymentMemo(OnChainMemo(Some("text"), Some(MemoText(code))), code).Attributed? <==> Carriable(code)
  {
    AttributedIff(OnChainMemo(Some("text"), Some(MemoText(code))), code);
  }

  /** Each refusal that speaks of another reference is exact: a different code, and a genuine 32-byte hash. */
  lemma RefusalsAreExact(onChain: OnChainMemo, expectedCode: string)
    ensures ValidatePaymentMemo(onChain, expectedCode) == Refused(CodeMismatch) <==>
              && onChain.memoType == Some("text")
              && exists code :: Carriable(code) && code != expectedCode && onChain.memo == Some(Reference(code))
    ensures ValidatePaymentMemo(onChain, expectedCode) == Refused(HashMemoMismatch) <==>
              && onChain.memoType == Some("hash")
              && exists b: seq<Base64.Byte> ::
                   |b| == MEMO_HASH_BYTES && onChain.memo == Some(Base64.Encode(Base64.Standard, b))
  {
    hide IsValidHashMemo, ParseMemo, Carriable;
    MismatchIsExact(onChain, expectedCode);
    HashMismatchIsExact(onChain, expectedCode);
  }

  /** The other refusals: no memo, a kind of memo that is not known, a hash of the wrong size, a text that is no reference. */
  lemma OtherRefusalsAreExact(onChain: OnChainMemo, expectedCode: string)
    ensures ValidatePaymentMemo(onChain, expectedCode) == Refused(MissingMemo) <==>
      || onChain.memoType in {None, Some("none")}
      || (onChain.memoType == Some("text") && onChain.memo in {None, Some("")})
    ensures ValidatePaymentMemo(onChain, expectedCode) == Refused(UnsupportedMemoType) <==>
      onChain.memoType !in {None, Some("none"), Some("text"), Some("hash")}
    ensures ValidatePaymentMemo(onChain, expectedCode) == Refused(InvalidHashMemo) <==>
      && onChain.memoType == Some("hash")
      && !exists b: seq<Base64.Byte> ::
           |b| == MEMO_HASH_BYTES && onChain.memo == Some(Base64.Encode(Base64.Standard, b))
    ensures forall failure :: ValidatePaymentMemo(onChain, expectedCode) == Refused(MalformedMemo(failure)) <==>
      && onChain.memoType == Some("text") && onChain.memo.Some? && onChain.memo.value != ""
      && ParseMemo(onChain.memo.value) == NotParsed(failure)
  {
    HashMismatchIsExact(onChain, expectedCode);
    if onChain.memo.Some? { LengthIsAtLeast(onChain.memo.value); }
    hide IsValidHashMemo, ParseMemo;
    assert "none" != "text" && "none" != "hash" && "text" != "hash" by { assert "none"[0] != "text"[0] && "none"[0] != "hash"[0] && "text"[0] != "hash"[0]; }
  }

  lemma MismatchIsExact(onChain: OnChainMemo, expectedCode: string)
    ensures ValidatePaymentMemo(onChain, expectedCode) == Refused(CodeMismatch) <==>
              && onChain.memoType == Some("text")
              && exists code :: Carriable(code) && code != expectedCode && onChain.memo == Some(Reference(code))
  {
    hide IsValidHashMemo, Carriable;
    if onChain.memo.Some? {
      var memo := onChain.memo.value;
      if ParseMemo(memo).Parsed? { ParseInvertsPrint(memo, ParseMemo(memo).code); }
      forall code | Carriable(code) && memo == Reference(code)
        ensures ParseMemo(memo) == Parsed(code, memo)
      {
        ParseInvertsPrint(memo, code);
      }
    }
  }

  lemma HashMismatchIsExact(onChain: OnChainMemo, expectedCode: string)
    ensures ValidatePaymentMemo(onChain, expectedCode) == Refused(HashMemoMismatch) <==>
              && onChain.memoType == Some("hash")
              && exists b: seq<Base64.Byte> ::
                   |b| == MEMO_HASH_BYTES && onChain.memo == Some(Base64.Encode(Base64.Standard, b))
  {
    hide IsValidHashMemo, ParseMemo;
    if onChain.memo.Some? { ValidHashMemoIff(onChain.memo.value); }
    ValidHashMemoIff("");
    forall b: seq<Base64.Byte> | |b| == MEMO_HASH_BYTES ensures Base64.Encode(Base64.Standard, b) != "" {
      HashLength(b);
    }
  }
}

/** JSON texts and their hash. */
module JsonText {
  // `JSON.stringify` on parsed values, and the hash of a request body made from it (src/plugins/idempotency.ts):
  // distinct bodies are hashed from distinct texts.

  import opened Basics
  import opened CanonicalJson
  import Base64
  import Utf8

  // ----- strings -----

  /** The letter of a two-character escape. */
  function ShortEscape(code: int): Option<char> {
    match code
    case 34 => Some('"')
    case 92 => Some('\\')
    case 8 => Some('b')
    case 9 => Some('t')
    case 10 => Some('n')
    case 12 => Some('f')
    case 13 => Some('r')
    case _ => None
  }

  function HexDigit(d: int): char
    requires 0 <= d < 16
  {
    if d < 10 then '0' + d as char else 'a' + (d - 10) as char
  }

  function EscapeChar(c: char): (s: string)
    ensures |s| > 0 && s[0] != '"'
  {
    var code := c as int;
    match ShortEscape(code)
    case Some(letter) => ['\\', letter]
    case None => if code < 32 then ['\\', 'u', '0', '0', HexDigit(code / 16), HexDigit(code % 16)] else [c]
  }

  function Escape(s: string): string {
    if s == "" then "" else EscapeChar(s[0]) + Escape(s[1..])
  }

  function Quote(s: string): string {
    ['"'] + Escape(s) + ['"']
  }

  lemma HexDigitsDiffer(d: int, e: int)
    requires 0 <= d < 16 && 0 <= e < 16 && HexDigit(d) == HexDigit(e)
    ensures d == e
  {
  }

  lemma ShortEscapesDiffer(a: int, b: int)
    requires ShortEscape(a).Some? && ShortEscape(b) == ShortEscape(a)
    ensures a == b
  {
  }

  lemma ShortEscapeIsNotU(a: int)
    ensures ShortEscape(a) != Some('u')
  {
  }

  lemma CancelPrefix<T>(p: seq<T>, a: seq<T>, b: seq<T>)
    requires p + a == p + b
    ensures a == b
  {
    assert (p + a)[|p|..] == a && (p + b)[|p|..] == b;
  }

  /** No character's escape is a prefix of another's. */
  lemma EscapesAreApart(c: char, d: char, u: string, v: string)
    requires EscapeChar(c) + u == EscapeChar(d) + v
    ensures c == d && u == v
  {
    var l, r := EscapeChar(c) + u, EscapeChar(d) + v;
    assert l[0] == EscapeChar(c)[0] && r[0] == EscapeChar(d)[0];
    SameEscape(c, d, l, u, v);
    CancelPrefix(EscapeChar(c), u, v);
  }

  lemma SameEscape(c: char, d: char, text: string, u: string, v: string)
    requires text == EscapeChar(c) + u && text == EscapeChar(d) + v
    ensures c == d
  {
    hide ShortEscape, HexDigit;
    assert text[0] == EscapeChar(c)[0] == EscapeChar(d)[0];
    assert ShortEscape(92) == Some('\\') by { BackslashIsEscaped(); }
    if EscapeChar(c)[0] == '\\' {
      assert text[1] == EscapeChar(c)[1] == EscapeChar(d)[1];
      var a, b := c as int, d as int;
      ShortEscapeIsNotU(a);
      ShortEscapeIsNotU(b);
      if ShortEscape(a).Some? {
        ShortEscapesDiffer(a, b);
      } else {
        assert text[4] == HexDigit(a / 16) == HexDigit(b / 16);
        assert text[5] == HexDigit(a % 16) == HexDigit(b % 16);
        HexDigitsDiffer(a / 16, b / 16);
        HexDigitsDiffer(a % 16, b % 16);
      }
    }
  }

  lemma BackslashIsEscaped()
    ensures ShortEscape(92) == Some('\\')
  {
  }

  lemma EscapedFirstChar(a: string, u: string)
    ensures (Escape(a) + (['"'] + u))[0] == '"' <==> a == ""
  {
    hide EscapeChar;
    if a != "" {
      assert (Escape(a) + (['"'] + u))[0] == EscapeChar(a[0])[0];
    }
  }

  lemma {:induction false} EscapedTextsAreApart(a: string, b: string, u: string, v: string)
    requires Escape(a) + (['"'] + u) == Escape(b) + (['"'] + v)
    ensures a == b && u == v
  {
    hide EscapeChar;
    EscapedFirstChar(a, u);
    EscapedFirstChar(b, v);
    if a == "" {
      assert Escape("") + (['"'] + u) == ['"'] + u && Escape("") + (['"'] + v) == ['"'] + v;
      CancelPrefix(['"'], u, v);
    } else {
      Associative(EscapeChar(a[0]), Escape(a[1..]), ['"'] + u);
      Associative(EscapeChar(b[0]), Escape(b[1..]), ['"'] + v);
      EscapesAreApart(a[0], b[0], Escape(a[1..]) + (['"'] + u), Escape(b[1..]) + (['"'] + v));
      EscapedTextsAreApart(a[1..], b[1..], u, v);
      assert a == [a[0]] + a[1..] && b == [b[0]] + b[1..];
    }
  }

  // ----- reading a string back -----

  function HexValue(c: char): Option<int> {
    if '0' <= c <= '9' then Some(c as int - '0' as int)
    else if 'a' <= c <= 'f' then Some(c as int - 'a' as int + 10)
    else if 'A' <= c <= 'F' then Some(c as int - 'A' as int + 10)
    else None
  }

  function HexCode(s: string): Option<int>
    requires |s| == 4
  {
    match (HexValue(s[0]), HexValue(s[1]), HexValue(s[2]), HexValue(s[3]))
    case (Some(a), Some(b), Some(c), Some(d)) => Some(((a * 16 + b) * 16 + c) * 16 + d)
    case _ => None
  }

  /** The character that a letter after a backslash stands for (section 7 of RFC 8259). */
  function Escaped(letter: char): Option<char> {
    match letter
    case '"' => Some('"')
    case '\\' => Some('\\')
    case '/' => Some('/')
    case 'b' => Some('\U{0008}')
    case 'f' => Some('\U{000C}')
    case 'n' => Some('\U{000A}')
    case 'r' => Some('\U{000D}')
    case 't' => Some('\U{0009}')
    case _ => None
  }

  /** One character of a JSON string, and what follows it. */
  function ReadChar(t: string): Option<(char, string)> {
    if t == "" || t[0] == '"' || (t[0] as int) < 0x20 then None
    else if t[0] != '\\' then Some((t[0], t[1..]))
    else if |t| >= 6 && t[1] == 'u' then
      match HexCode(t[2..6])
      case Some(code) => if 0 <= code < 0xD800 then Some((code as char, t[6..])) else None
      case None => None
    else if |t| >= 2 && Escaped(t[1]).Some? then Some((Escaped(t[1]).value, t[2..]))
    else None
  }

  /** A JSON string up to its closing quote, and what follows that. */
  function ReadString(t: string): Option<(string, string)>
    decreases |t|
  {
    if t != "" && t[0] == '"' then Some(("", t[1..]))
    else
      match ReadChar(t)
      case None => None
      case Some((c, rest)) =>
        match ReadString(rest)
        case None => None
        case Some((s, end)) => Some(([c] + s, end))
  }

  lemma HexDigitsRead(code: int)
    requires 0 <= code < 256
    ensures HexCode(['0', '0', HexDigit(code / 16), HexDigit(code % 16)]) == Some(code)
  {
    assert HexValue(HexDigit(code / 16)) == Some(code / 16) && HexValue(HexDigit(code % 16)) == Some(code % 16);
  }

  /**
   * What is written for a character is read as that character. It is the character itself unless it must be escaped,
   * a letter where there is one, and a hexadecimal code otherwise.
   */
  lemma EscapesAreRead(c: char, rest: string)
    ensures ReadChar(EscapeChar(c) + rest) == Some((c, rest))
    ensures |EscapeChar(c)| == if (c as int) < 0x20 && c !in "\U{0008}\U{0009}\n\U{000C}\r" then 6
                               else if (c as int) < 0x20 || c == '"' || c == '\\' then 2
                               else 1
  {
    var code, e := c as int, EscapeChar(c);
    var t := e + rest;
    assert t[|e|..] == rest && t[0] == e[0];
    if ShortEscape(code).Some? {
      assert t[1] == e[1];
    } else if code < 32 {
      HexDigitsRead(code);
      assert t[1] == e[1] && t[2..6] == ['0', '0', HexDigit(code / 16), HexDigit(code % 16)];
    }
  }

  /** A string's JSON text, read back as JSON reads strings, is the string. */
  lemma {:induction false} StringsAreRead(s: string, rest: string)
    ensures ReadString(Escape(s) + (['"'] + rest)) == Some((s, rest))
  {
    hide EscapeChar, ReadChar;
    var tail := ['"'] + rest;
    if s == "" {
      assert Escape(s) + tail == tail && tail[1..] == rest;
    } else {
      Associative(EscapeChar(s[0]), Escape(s[1..]), tail);
      EscapesAreRead(s[0], Escape(s[1..]) + tail);
      EscapedFirstChar(s, rest);
      StringsAreRead(s[1..], rest);
      assert s == [s[0]] + s[1..];
    }
  }

  // ----- different strings -----

  lemma QuotedTextsAreApart(a: string, b: string, u: string, v: string)
    requires Quote(a) + u == Quote(b) + v
    ensures a == b && u == v
  {
    hide Escape;
    assert Quote(a) + u == ['"'] + (Escape(a) + (['"'] + u));
    assert Quote(b) + v == ['"'] + (Escape(b) + (['"'] + v));
    CancelPrefix(['"'], Escape(a) + (['"'] + u), Escape(b) + (['"'] + v));
    EscapedTextsAreApart(a, b, u, v);
  }

  // ----- values -----

  function Serialize(j: Json): string {
    match j
    case Leaf(printed) => printed
    case Text(text) => Quote(text)
    case Arr(items) => ['['] + SerializeItems(items, [])
    case Obj(es) => ['{'] + SerializeEntries(es, [])
  }

  function SerializeItems(items: Items, comma: string): string {
    match items
    case NoItems => [']']
    case Item(head, tail) => comma + (Serialize(head) + SerializeItems(tail, [',']))
  }

  function SerializeEntries(es: Entries, comma: string): string {
    match es
    case End => ['}']
    case Entry(k, v, rest) => comma + (Quote(k) + ([':'] + (Serialize(v) + SerializeEntries(rest, [',']))))
  }

  /** What may follow a value inside a text: nothing, or punctuation. */
  predicate Ends(u: string) {
    u == "" || !IsPlain(u[0])
  }

  lemma FirstChar(j: Json)
    requires WellFormed(j)
    ensures |Serialize(j)| > 0
    ensures match j
            case Leaf(_) => IsPlain(Serialize(j)[0])
            case Text(_) => Serialize(j)[0] == '"'
            case Arr(_) => Serialize(j)[0] == '['
            case Obj(_) => Serialize(j)[0] == '{'
  {
  }

  lemma ItemsEnd(items: Items, u: string)
    ensures Ends(SerializeItems(items, [',']) + u)
  {
  }

  lemma EntriesEnd(es: Entries, u: string)
    ensures Ends(SerializeEntries(es, [',']) + u)
  {
  }

  /** How many characters come before the first punctuation. */
  function PlainLength(t: string): nat {
    if t == "" || !IsPlain(t[0]) then 0 else 1 + PlainLength(t[1..])
  }

  lemma {:induction false} LengthOfLeaf(p: string, u: string)
    requires Ends(u) && forall i :: 0 <= i < |p| ==> IsPlain(p[i])
    ensures PlainLength(p + u) == |p|
  {
    hide IsPlain;
    if p == "" {
      assert p + u == u;
    } else {
      assert (p + u)[0] == p[0] && (p + u)[1..] == p[1..] + u;
      LengthOfLeaf(p[1..], u);
    }
  }

  lemma LeavesAreApart(p: string, q: string, u: string, v: string)
    requires p + u == q + v && Ends(u) && Ends(v)
    requires forall i :: 0 <= i < |p| ==> IsPlain(p[i])
    requires forall i :: 0 <= i < |q| ==> IsPlain(q[i])
    ensures p == q && u == v
  {
    hide IsPlain, PlainLength;
    LengthOfLeaf(p, u);
    LengthOfLeaf(q, v);
    assert (p + u)[..|p|] == p && (q + v)[..|q|] == q;
    CancelPrefix(p, u, v);
  }

  lemma SameKind(x: Json, y: Json, u: string, v: string)
    requires WellFormed(x) && WellFormed(y) && Serialize(x) + u == Serialize(y) + v
    ensures (x.Leaf? <==> y.Leaf?) && (x.Text? <==> y.Text?) && (x.Arr? <==> y.Arr?) && (x.Obj? <==> y.Obj?)
  {
    FirstChar(x);
    FirstChar(y);
    hide Serialize, WellFormed;
    assert (Serialize(x) + u)[0] == Serialize(x)[0] && (Serialize(y) + v)[0] == Serialize(y)[0];
  }

  /** Texts of values can be told apart, and where each ends: the text before punctuation determines the value. */
  lemma {:induction false} TextDeterminesValue(x: Json, y: Json, u: string, v: string)
    requires WellFormed(x) && WellFormed(y) && Ends(u) && Ends(v)
    requires Serialize(x) + u == Serialize(y) + v
    ensures x == y && u == v
    decreases x, 0
  {
    SameKind(x, y, u, v);
    match x
    case Leaf(printed) => LeavesAreApart(printed, y.printed, u, v);
    case Text(text) => QuotedTextsAreApart(text, y.text, u, v);
    case Arr(items) =>
      Associative(['['], SerializeItems(items, []), u);
      Associative(['['], SerializeItems(y.items, []), v);
      CancelPrefix(['['], SerializeItems(items, []) + u, SerializeItems(y.items, []) + v);
      TextDeterminesItems(items, y.items, [], u, v);
    case Obj(es) =>
      Associative(['{'], SerializeEntries(es, []), u);
      Associative(['{'], SerializeEntries(y.entries, []), v);
      CancelPrefix(['{'], SerializeEntries(es, []) + u, SerializeEntries(y.entries, []) + v);
      TextDeterminesEntries(es, y.entries, [], u, v);
  }

  lemma ItemsFirstChar(items: Items, comma: string, u: string)
    requires WellFormedItems(items) && comma in {[], [',']}
    ensures |SerializeItems(items, comma)| > 0
    ensures items.NoItems? <==> (SerializeItems(items, comma) + u)[0] == ']'
  {
    if items.Item? {
      FirstChar(items.head);
      hide Serialize, WellFormed;
    }
  }

  lemma EntriesFirstChar(es: Entries, comma: string, u: string)
    requires comma in {[], [',']}
    ensures |SerializeEntries(es, comma)| > 0
    ensures es.End? <==> (SerializeEntries(es, comma) + u)[0] == '}'
  {
    hide Serialize, Escape;
  }

  lemma ItemsUnfold(items: Items, comma: string, u: string)
    requires items.Item?
    ensures SerializeItems(items, comma) + u == comma + (Serialize(items.head) + (SerializeItems(items.tail, [',']) + u))
  {
    hide Serialize;
  }

  lemma EntriesUnfold(es: Entries, comma: string, u: string)
    requires es.Entry?
    ensures SerializeEntries(es, comma) + u
         == comma + (Quote(es.key) + ([':'] + (Serialize(es.value) + (SerializeEntries(es.rest, [',']) + u))))
  {
    hide Serialize, Quote;
  }

  lemma {:induction false} TextDeterminesItems(a: Items, b: Items, comma: string, u: string, v: string)
    requires WellFormedItems(a) && WellFormedItems(b) && comma in {[], [',']}
    requires SerializeItems(a, comma) + u == SerializeItems(b, comma) + v
    ensures a == b && u == v
    decreases a, 1
  {
    ItemsFirstChar(a, comma, u);
    ItemsFirstChar(b, comma, v);
    if a.NoItems? {
      CancelPrefix([']'], u, v);
    } else {
      ItemsUnfold(a, comma, u);
      ItemsUnfold(b, comma, v);
      hide Serialize, SerializeItems, WellFormed, Ends;
      var s, t := SerializeItems(a.tail, [',']) + u, SerializeItems(b.tail, [',']) + v;
      CancelPrefix(comma, Serialize(a.head) + s, Serialize(b.head) + t);
      ItemsEnd(a.tail, u);
      ItemsEnd(b.tail, v);
      TextDeterminesValue(a.head, b.head, s, t);
      TextDeterminesItems(a.tail, b.tail, [','], u, v);
    }
  }

  lemma {:induction false} TextDeterminesEntries(a: Entries, b: Entries, comma: string, u: string, v: string)
    requires WellFormedEntries(a) && WellFormedEntries(b) && comma in {[], [',']}
    requires SerializeEntries(a, comma) + u == SerializeEntries(b, comma) + v
    ensures a == b && u == v
    decreases a, 1
  {
    EntriesFirstChar(a, comma, u);
    EntriesFirstChar(b, comma, v);
    if a.End? {
      CancelPrefix(['}'], u, v);
    } else {
      EntriesUnfold(a, comma, u);
      EntriesUnfold(b, comma, v);
      hide Serialize, SerializeEntries, WellFormed, Ends, Quote, MapOf;
      var s, t := SerializeEntries(a.rest, [',']) + u, SerializeEntries(b.rest, [',']) + v;
      CancelPrefix(comma, Quote(a.key) + ([':'] + (Serialize(a.value) + s)), Quote(b.key) + ([':'] + (Serialize(b.value) + t)));
      QuotedTextsAreApart(a.key, b.key, [':'] + (Serialize(a.value) + s), [':'] + (Serialize(b.value) + t));
      CancelPrefix([':'], Serialize(a.value) + s, Serialize(b.value) + t);
      EntriesEnd(a.rest, u);
      EntriesEnd(b.rest, v);
      TextDeterminesValue(a.value, b.value, s, t);
      TextDeterminesEntries(a.rest, b.rest, [','], u, v);
    }
  }

  lemma SerializeIsInjective(x: Json, y: Json)
    requires WellFormed(x) && WellFormed(y) && Serialize(x) == Serialize(y)
    ensures x == y
  {
    hide Serialize, WellFormed;
    assert Serialize(x) + "" == Serialize(y) + "";
    TextDeterminesValue(x, y, "", "");
  }

  // ----- the hash -----

  /** `{ scope, body }`. */
  function HashInput(scope: string, body: Json): Json {
    Obj(Entry("scope", Text(scope), Entry("body", body, End)))
  }

  function Preimage(scope: string, body: Json): string {
    Serialize(Canonicalize(HashInput(scope, body)))
  }

  /** `hashRequestBody`, with the digest of the text's UTF-8 bytes as a parameter. */
  function HashRequestBody(digest: seq<Base64.Byte> -> string, scope: string, body: Json): string {
    digest(Utf8.Encode(Preimage(scope, body)))
  }

  lemma HashInputMeans(scope: string, body: Json)
    requires WellFormed(body)
    ensures WellFormed(HashInput(scope, body))
    ensures Meaning(HashInput(scope, body), false) == Record(map["scope" := Words(scope), "body" := Meaning(body, false)])
  {
    var inner := Entry("body", body, End);
    assert |"scope"| == 5 && |"body"| == 4;
    assert MapOf(inner) == map["body" := body];
    assert !IsProto("scope") && !IsProto("body");
    assert Fields(inner, false) == map["body" := Meaning(body, false)];
    assert WellFormedEntries(End) && WellFormedEntries(inner);
    assert Meaning(Text(scope), false) == Words(scope);
    assert Fields(Entry("scope", Text(scope), inner), false) == map["scope" := Words(scope), "body" := Meaning(body, false)];
  }

  /** Requests are hashed from the same text exactly when their scopes are equal and their bodies mean the same. */
  lemma PreimagesAgreeIff(s: string, x: Json, t: string, y: Json)
    requires WellFormed(x) && WellFormed(y)
    ensures Preimage(s, x) == Preimage(t, y) <==> s == t && Meaning(x, false) == Meaning(y, false)
  {
    hide Meaning, WellFormed, Canonicalize, Serialize, HashInput;
    var a, b := HashInput(s, x), HashInput(t, y);
    HashInputMeans(s, x);
    HashInputMeans(t, y);
    CanonicalFormsAgreeIff(a, b);
    CanonicalIsWellFormed(a);
    CanonicalIsWellFormed(b);
    if Serialize(Canonicalize(a)) == Serialize(Canonicalize(b)) {
      SerializeIsInjective(Canonicalize(a), Canonicalize(b));
    }
    RecordsAgree(s, Meaning(x, false), t, Meaning(y, false));
  }

  lemma RecordsAgree(s: string, x: Value, t: string, y: Value)
    ensures Record(map["scope" := Words(s), "body" := x]) == Record(map["scope" := Words(t), "body" := y]) <==> s == t && x == y
  {
    var a, b := map["scope" := Words(s), "body" := x], map["scope" := Words(t), "body" := y];
    if a == b { assert a["scope"] == b["scope"] && a["body"] == b["body"]; }
  }

  /** With a collision-free digest, equal hashes are exactly equal requests: reordering keys is all that is forgiven. */
  lemma HashesAgreeIff(digest: seq<Base64.Byte> -> string, s: string, x: Json, t: string, y: Json)
    requires forall a, b :: digest(a) == digest(b) ==> a == b
    requires WellFormed(x) && WellFormed(y)
    ensures HashRequestBody(digest, s, x) == HashRequestBody(digest, t, y) <==> s == t && Meaning(x, false) == Meaning(y, false)
  {
    hide Meaning, WellFormed, Preimage, Utf8.Encode;
    PreimagesAgreeIff(s, x, t, y);
    Utf8.DecodeEncode(Preimage(s, x));
    Utf8.DecodeEncode(Preimage(t, y));
  }

  /**
   * Bodies that arrive have no `__proto__`: their requests hash alike exactly when the scopes are equal and the
   * bodies are equal up to the order of object keys.
   */
  lemma ArrivingHashesAgreeIff(digest: seq<Base64.Byte> -> string, s: string, x: Json, t: string, y: Json)
    requires forall a, b :: digest(a) == digest(b) ==> a == b
    requires WellFormed(x) && WellFormed(y) && ProtoFree(x) && ProtoFree(y)
    ensures HashRequestBody(digest, s, x) == HashRequestBody(digest, t, y) <==> s == t && Meaning(x, true) == Meaning(y, true)
  {
    hide Meaning, WellFormed, ProtoFree, Preimage, Utf8.Encode;
    HashesAgreeIff(digest, s, x, t, y);
    ProtoFreeIff(x);
    ProtoFreeIff(y);
  }
}

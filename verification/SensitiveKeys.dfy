/** Which keys name a credential (`isSensitiveKey` in src/lib/serializers.ts). */
module SensitiveKeys {
  import opened Basics
  import opened Text

  const SENSITIVE_HEADERS := {"authorization", "proxy-authorization", "cookie", "set-cookie", "x-api-key"}

  const SENSITIVE_KEYS := SENSITIVE_HEADERS + {
    "token", "accesstoken", "refreshtoken", "sessiontoken", "idtoken", "jwt", "secret", "clientsecret", "password",
    "privatekey", "secretkey", "seed", "mnemonic", "apikey", "xdr", "signedxdr", "transactionxdr"}

  predicate IsDash(c: char) {
    c == '-' || c == '_'
  }

  /** `s.replace(/[-_]/g, "")`. */
  function Undashed(s: string): string {
    if s == "" then "" else (if IsDash(s[0]) then "" else [s[0]]) + Undashed(s[1..])
  }

  predicate IsListed(s: string) {
    s in SENSITIVE_KEYS
  }

  predicate IsSensitiveKey(key: string) {
    IsListed(ToLower(key)) || IsListed(Undashed(ToLower(key)))
  }

  /** A key in lower case and without its dashes. */
  function Fold(key: string): string {
    Undashed(ToLower(key))
  }

  // ----- names without dashes -----

  predicate NoDash(s: string) {
    forall i :: 0 <= i < |s| ==> !IsDash(s[i])
  }

  predicate IsLower(s: string) {
    forall i :: 0 <= i < |s| ==> 'a' <= s[i] <= 'z' || s[i] == '-'
  }

  lemma {:induction false} UndashedFixed(s: string)
    requires NoDash(s)
    ensures Undashed(s) == s
  {
    if s != "" {
      assert NoDash(s[1..]);
      UndashedFixed(s[1..]);
      assert s == [s[0]] + s[1..];
    }
  }

  lemma {:induction false} UndashedConcat(a: string, b: string)
    ensures Undashed(a + b) == Undashed(a) + Undashed(b)
  {
    if a == "" {
      assert a + b == b;
    } else {
      assert (a + b)[1..] == a[1..] + b;
      UndashedConcat(a[1..], b);
    }
  }

  lemma UndashedAround(a: string, b: string)
    requires NoDash(a) && NoDash(b)
    ensures Undashed(a + "-" + b) == a + b
  {
    UndashedConcat(a + "-", b);
    UndashedConcat(a, "-");
    UndashedFixed(a);
    UndashedFixed(b);
    assert Undashed("-") == "" by { assert "-"[1..] == ""; }
  }

  lemma LowerFixed(s: string)
    requires IsLower(s)
    ensures ToLower(s) == s
  {
    forall i | 0 <= i < |s| ensures ToLower(s)[i] == s[i] {
    }
  }

  // ----- the listed names -----

  const DASHED := {"proxy-authorization", "set-cookie", "x-api-key"}
  const UNDASHED_SPELLINGS := {"proxyauthorization", "setcookie", "xapikey"}

  lemma UndashedProxyAuthorization()
    ensures Undashed("proxy-authorization") == "proxyauthorization"
  {
    assert NoDash("proxy") && NoDash("authorization");
    hide Undashed, NoDash;
    UndashedAround("proxy", "authorization");
    assert "proxy" + "-" + "authorization" == "proxy-authorization" && "proxy" + "authorization" == "proxyauthorization";
  }

  lemma UndashedSetCookie()
    ensures Undashed("set-cookie") == "setcookie"
  {
    assert NoDash("set") && NoDash("cookie");
    hide Undashed, NoDash;
    UndashedAround("set", "cookie");
    assert "set" + "-" + "cookie" == "set-cookie" && "set" + "cookie" == "setcookie";
  }

  lemma UndashedApiKey()
    ensures Undashed("x-api-key") == "xapikey"
  {
    assert NoDash("x") && NoDash("api") && NoDash("") && NoDash("key");
    hide Undashed, NoDash;
    UndashedAround("x", "api");
    UndashedConcat("x" + "-" + "api", "-key");
    UndashedAround("", "key");
    assert "" + "-" + "key" == "-key" && "x" + "-" + "api" + "-key" == "x-api-key";
    assert "" + "key" == "key" && "x" + "api" + "key" == "xapikey";
  }

  lemma DashedFold(s: string)
    requires s in DASHED
    ensures IsLower(s) && IsListed(s) && Undashed(s) in UNDASHED_SPELLINGS
  {
    hide Undashed;
    UndashedProxyAuthorization();
    UndashedSetCookie();
    UndashedApiKey();
  }

  lemma OthersHaveNoDash(s: string)
    requires IsListed(s) && s !in DASHED
    ensures NoDash(s)
  {
  }

  /** What the lengths of the listed names tell apart. */
  lemma ListedByLength(s: string)
    requires IsListed(s)
    ensures |s| != 18
    ensures |s| == 4 || |s| == 6 ==> s[0] in {'s', 'c', 'a'}
    ensures |s| == 4 ==> s[0] == 's'
    ensures |s| == 5 ==> s[0] == 't'
    ensures |s| == 7 ==> s[0] == 'i'
    ensures |s| == 9 ==> s[0] == 'x' || (s[0] == 's' && s[1] in {'e', 'i'} && s[2] in {'c', 'g'})
    ensures |s| == 10 ==> (s[0] == 's' && s[1] == 'e') || s[0] == 'p'
    ensures |s| == 13 ==> s[0] == 'a'
  {
  }

  lemma UndashedSpellingsAreNotListed(f: string)
    requires f in UNDASHED_SPELLINGS
    ensures !IsListed(f) && IsLower(f) && NoDash(f)
  {
    if IsListed(f) { ListedByLength(f); }
  }

  /** A key is sensitive when its folded spelling is listed, or when it is spelled with the dashes of one of three names. */
  lemma SensitiveIff(key: string)
    ensures IsSensitiveKey(key) <==> IsListed(Fold(key)) || ToLower(key) in DASHED
  {
    hide IsListed, IsDash;
    var lower := ToLower(key);
    if lower in DASHED { DashedFold(lower); }
    if IsListed(lower) && lower !in DASHED {
      OthersHaveNoDash(lower);
      UndashedFixed(lower);
    }
  }

  lemma {:induction false} UndashedHasNoDash(s: string)
    ensures NoDash(Undashed(s))
  {
    if s != "" { UndashedHasNoDash(s[1..]); }
  }

  /** The keys that are censored: nineteen names in any case and with any dashes, and three more with their own dashes. */
  lemma CensoredNames(key: string)
    ensures IsSensitiveKey(key) <==>
      || Fold(key) in {
           "authorization", "cookie", "token", "accesstoken", "refreshtoken", "sessiontoken", "idtoken", "jwt", "secret",
           "clientsecret", "password", "privatekey", "secretkey", "seed", "mnemonic", "apikey", "xdr", "signedxdr",
           "transactionxdr"}
      || ToLower(key) in {"proxy-authorization", "set-cookie", "x-api-key"}
  {
    SensitiveIff(key);
    UndashedHasNoDash(ToLower(key));
    DashedHasDash(Fold(key));
    hide Undashed, ToLower, NoDash, IsSensitiveKey;
  }

  lemma DashedHasDash(s: string)
    ensures s in DASHED ==> !NoDash(s)
  {
    if s in DASHED { assert IsDash(s[if s == "set-cookie" then 3 else if s == "x-api-key" then 1 else 5]); }
  }

  /** All spellings of a name are treated alike. */
  ghost predicate SpellingsAgree(f: string) {
    forall a, b :: Fold(a) == f && Fold(b) == f ==> (IsSensitiveKey(a) <==> IsSensitiveKey(b))
  }

  /**
   * Case and dashes do not matter to whether a key is censored, except for exactly three names: those listed
   * with dashes are censored only as listed, and `setCookie` or `x_api_key` are not.
   */
  lemma SpellingsAgreeIff(f: string)
    ensures SpellingsAgree(f) <==> f !in UNDASHED_SPELLINGS
  {
    hide IsListed, IsDash, ToLower, Undashed;
    if f in UNDASHED_SPELLINGS {
      UndashedSpellingsAreNotListed(f);
      LowerFixed(f);
      UndashedFixed(f);
      SensitiveIff(f);
      assert f !in DASHED by { SpellingsAreUndashed(f); }
      var listed := DashedSpelling(f);
      LowerFixed(listed);
      SensitiveIff(listed);
      assert !SpellingsAgree(f);
    } else {
      forall a, b | Fold(a) == f && Fold(b) == f ensures IsSensitiveKey(a) <==> IsSensitiveKey(b) {
        SensitiveIff(a);
        SensitiveIff(b);
        if ToLower(a) in DASHED { DashedFold(ToLower(a)); }
        if ToLower(b) in DASHED { DashedFold(ToLower(b)); }
      }
    }
  }

  lemma SpellingsAreUndashed(f: string)
    requires f in UNDASHED_SPELLINGS
    ensures f !in DASHED
  {
    if f in DASHED { DashedFold(f); UndashedSpellingsAreNotListed(f); }
  }

  lemma DashedSpelling(f: string) returns (listed: string)
    requires f in UNDASHED_SPELLINGS
    ensures listed in DASHED && IsLower(listed) && Undashed(listed) == f
  {
    hide Undashed, IsLower, IsListed;
    UndashedProxyAuthorization();
    UndashedSetCookie();
    UndashedApiKey();
    listed := if f == "proxyauthorization" then "proxy-authorization" else if f == "setcookie" then "set-cookie" else "x-api-key";
    DashedFold(listed);
  }

  // ----- the fields of a serialized error -----

  const ERROR_FIELDS := {"type", "name", "message", "stack", "code", "statusCode", "requestId", "correlationId", "operation", "details"}

  predicate IsErrorField(key: string) {
    key in ERROR_FIELDS
  }

  lemma ErrorFieldNames()
    ensures IsErrorField("type") && IsErrorField("name") && IsErrorField("message") && IsErrorField("stack")
    ensures IsErrorField("code") && IsErrorField("statusCode") && IsErrorField("requestId")
    ensures IsErrorField("correlationId") && IsErrorField("operation") && IsErrorField("details")
  {
  }

  lemma NoDashIsListedIff(key: string)
    requires NoDash(key)
    ensures IsSensitiveKey(key) <==> IsListed(ToLower(key))
  {
    hide IsListed;
    forall i | 0 <= i < |key| ensures !IsDash(ToLower(key)[i]) {
      assert !IsDash(key[i]);
    }
    UndashedFixed(ToLower(key));
  }

  /** No field of a serialized error is taken for a credential. */
  lemma ErrorFieldsAreNotSensitive(key: string)
    requires IsErrorField(key)
    ensures !IsSensitiveKey(key) && !IsProto(key)
  {
    ErrorFieldHasNoDash(key);
    NoDashIsListedIff(key);
    hide IsListed, NoDash, IsDash;
    var lower := ToLower(key);
    ErrorFieldShape(key);
    if IsListed(lower) {
      ListedByLength(lower);
      assert false;
    }
  }

  lemma ErrorFieldHasNoDash(key: string)
    requires key in ERROR_FIELDS
    ensures NoDash(key) && !IsProto(key)
  {
  }

  lemma ErrorFieldShape(key: string)
    requires key in ERROR_FIELDS
    ensures |key| in {4, 5, 7, 9, 10, 13}
    ensures |key| == 4 ==> Lower(key[0]) in {'t', 'n', 'c'}
    ensures |key| == 5 ==> Lower(key[0]) == 's'
    ensures |key| == 7 ==> Lower(key[0]) in {'m', 'd'}
    ensures |key| == 9 ==> Lower(key[0]) in {'r', 'o'}
    ensures |key| == 10 ==> Lower(key[0]) == 's' && Lower(key[1]) == 't'
    ensures |key| == 13 ==> Lower(key[0]) == 'c'
  {
  }
}

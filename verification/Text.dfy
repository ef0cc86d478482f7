/** The parts of JavaScript's string library that several modules use. */
module Text {

  /** What `String.prototype.trim` removes. */
  predicate IsSpace(c: char) {
    || c in {' ', '\t', '\n', '\r', '\U{000B}', '\U{000C}', '\U{00A0}', '\U{1680}', '\U{2028}', '\U{2029}',
             '\U{202F}', '\U{205F}', '\U{3000}', '\U{FEFF}'}
    || '\U{2000}' <= c <= '\U{200A}'
  }

  /** The white space and line terminators of ECMAScript, by code. */
  lemma SpacesByCode(c: char)
    ensures IsSpace(c) <==>
      var code := c as int;
      9 <= code <= 13 || code in {32, 160, 5760, 8232, 8233, 8239, 8287, 12288, 65279} || 8192 <= code <= 8202
  {
  }

  predicate IsTrimmed(s: string) {
    s == "" || (!IsSpace(s[0]) && !IsSpace(s[|s| - 1]))
  }

  /** `s` is `t` with nothing but space around it. */
  ghost predicate Surrounds(s: string, t: string) {
    exists a, b :: AllSpace(a) && AllSpace(b) && s == a + t + b
  }

  ghost predicate AllSpace(s: string) {
    forall i :: 0 <= i < |s| ==> IsSpace(s[i])
  }

  function Trim(s: string): (t: string)
    ensures IsTrimmed(t) && |t| <= |s|
  {
    if IsTrimmed(s) then s
    else if IsSpace(s[0]) then Trim(s[1..])
    else Trim(s[..|s| - 1])
  }

  lemma SpaceBefore(c: char, s: string, t: string)
    requires IsSpace(c) && Surrounds(s, t)
    ensures Surrounds([c] + s, t)
  {
    hide IsSpace;
    var a, b :| AllSpace(a) && AllSpace(b) && s == a + t + b;
    assert AllSpace([c] + a);
    assert [c] + s == ([c] + a) + t + b;
  }

  lemma SpaceAfter(c: char, s: string, t: string)
    requires IsSpace(c) && Surrounds(s, t)
    ensures Surrounds(s + [c], t)
  {
    hide IsSpace;
    var a, b :| AllSpace(a) && AllSpace(b) && s == a + t + b;
    assert AllSpace(b + [c]);
    assert s + [c] == a + t + (b + [c]);
  }

  /** Trimming takes away the space around a text and nothing else. */
  lemma {:induction false} TrimTakesSpace(s: string)
    ensures Surrounds(s, Trim(s))
  {
    hide IsSpace, Surrounds;
    if IsTrimmed(s) {
      assert Surrounds(s, s) by { NothingAround(s); }
    } else if IsSpace(s[0]) {
      TrimTakesSpace(s[1..]);
      SpaceBefore(s[0], s[1..], Trim(s));
      assert s == [s[0]] + s[1..];
    } else {
      var n := |s| - 1;
      TrimTakesSpace(s[..n]);
      SpaceAfter(s[n], s[..n], Trim(s));
      assert s == s[..n] + [s[n]];
    }
  }

  lemma NothingAround(s: string)
    ensures Surrounds(s, s)
  {
    assert AllSpace("") && s == "" + s + "";
  }

  /**
   * Lower case as far as it can produce ASCII: the capital letters, and the Kelvin sign. Every other
   * character stays outside ASCII when lower-cased, and so outside every name that is compared with.
   */
  function Lower(c: char): char {
    var code := c as int;
    if 65 <= code <= 90 then (code + 32) as char
    else if code == 0x212A then 'k'
    else c
  }

  function ToLower(s: string): (t: string)
    ensures |t| == |s| && forall i :: 0 <= i < |s| ==> t[i] == Lower(s[i])
  {
    if s == "" then "" else [Lower(s[0])] + ToLower(s[1..])
  }

  /** What becomes a given character between `[` and DEL, a small letter say: itself, its capital, and for `k` the Kelvin sign. */
  lemma LowersTo(c: char, d: char)
    requires '[' <= d <= '\U{007F}'
    ensures Lower(c) == d <==> c == d || (d in "abcdefghijklmnopqrstuvwxyz" && c as int == d as int - 32) || (d == 'k' && c == '\U{212A}')
  {
    assert forall i :: 0 <= i < 26 ==> "abcdefghijklmnopqrstuvwxyz"[i] as int == 97 + i;
    if 'a' <= d <= 'z' { assert "abcdefghijklmnopqrstuvwxyz"[d as int - 97] == d; }
  }

  lemma LowerKeepsSpaces(c: char)
    ensures IsSpace(Lower(c)) <==> IsSpace(c)
    ensures Lower(Lower(c)) == Lower(c)
  {
  }

  /** `s.trim().toLowerCase()`. */
  function Normalize(s: string): string {
    ToLower(Trim(s))
  }

  /** Normalizing twice is normalizing once. */
  lemma NormalizeIsIdempotent(s: string)
    ensures Normalize(Normalize(s)) == Normalize(s)
  {
    hide IsSpace, Lower;
    var t := Trim(s);
    var u := ToLower(t);
    if t != "" {
      LowerKeepsSpaces(t[0]);
      LowerKeepsSpaces(t[|t| - 1]);
    }
    assert Trim(u) == u;
    forall i | 0 <= i < |u| ensures ToLower(u)[i] == u[i] { LowerKeepsSpaces(t[i]); }
  }
}

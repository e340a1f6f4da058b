/**
 * Character classes and string helpers shared by the scripts: Python's notion
 * of whitespace (`str.isspace`, and the `\s` class of `re` on `str` patterns,
 * which CPython implements with the same table), `str.strip()`, ASCII case
 * folding and decimal rendering of counters.
 */
module Text {

  /** `str.isspace()` for one character, and the `\s` class of `re`. */
  predicate IsSpace(c: char) {
    || c == ' '
    || ('\t' <= c <= '\r')
    || ('\U{1C}' <= c <= '\U{1F}')
    || c == '\U{85}' || c == '\U{A0}' || c == '\U{1680}'
    || ('\U{2000}' <= c <= '\U{200A}')
    || c == '\U{2028}' || c == '\U{2029}' || c == '\U{202F}'
    || c == '\U{205F}' || c == '\U{3000}'
  }

  predicate AllSpace(s: string) {
    forall k | 0 <= k < |s| :: IsSpace(s[k])
  }

  /** Neither end of `s` is whitespace (the empty string qualifies). */
  predicate Trimmed(s: string) {
    s == [] || (!IsSpace(s[0]) && !IsSpace(s[|s| - 1]))
  }

  /** The number of whitespace characters `s` starts with. */
  function LeadingSpaces(s: string): (n: nat)
    ensures n <= |s| && AllSpace(s[..n])
    ensures n == |s| || !IsSpace(s[n])
  {
    if s != [] && IsSpace(s[0]) then
      var m := LeadingSpaces(s[1..]);
      assert s[..1 + m] == [s[0]] + s[1..][..m];
      1 + m
    else 0
  }

  /** The number of whitespace characters `s` ends with. */
  function TrailingSpaces(s: string): (n: nat)
    ensures n <= |s| && AllSpace(s[|s| - n..])
    ensures n == |s| || !IsSpace(s[|s| - n - 1])
  {
    if s != [] && IsSpace(s[|s| - 1]) then
      var m := TrailingSpaces(s[..|s| - 1]);
      SpaceSuffixGrows(s, m);
      1 + m
    else 0
  }

  /** A whitespace run at the end of `s` minus its last character, followed
      by a whitespace last character, is a whitespace run at the end of `s`. */
  lemma SpaceSuffixGrows(s: string, m: nat)
    requires s != [] && IsSpace(s[|s| - 1])
    requires m <= |s| - 1 && AllSpace(s[..|s| - 1][|s| - 1 - m..])
    ensures AllSpace(s[|s| - 1 - m..])
  {
    var u := s[|s| - 1 - m..];
    forall k | 0 <= k < |u|
      ensures IsSpace(u[k])
    {
      if k < m {
        assert u[k] == s[..|s| - 1][|s| - 1 - m..][k];
      }
    }
  }

  /** `s.lstrip()` */
  function TrimStart(s: string): (r: string)
    ensures |r| <= |s| && r == s[|s| - |r|..]
    ensures AllSpace(s[..|s| - |r|])
    ensures r == [] || !IsSpace(r[0])
  {
    s[LeadingSpaces(s)..]
  }

  /** `s.rstrip()` */
  function TrimEnd(s: string): (r: string)
    ensures |r| <= |s| && r == s[..|r|]
    ensures AllSpace(s[|r|..])
    ensures r == [] || !IsSpace(r[|r| - 1])
  {
    s[..|s| - TrailingSpaces(s)]
  }

  /** `s.strip()`: no whitespace at either end, and a string without any
      there is left as it is. */
  function Strip(s: string): (r: string)
    ensures |r| <= |s|
    ensures Trimmed(r)
    ensures Trimmed(s) ==> r == s
  {
    var t := TrimStart(s);
    StripTrimmed(t, TrimEnd(t));
    TrimmedIsStripped(s);
    TrimEnd(t)
  }

  /** `s` is `s.strip()` with a run of whitespace before it (the one `lstrip`
      drops) and a run of whitespace after it (the one `rstrip` drops). */
  lemma StripIsSlice(s: string)
    ensures Strip(s) == TrimEnd(TrimStart(s))
    ensures var t := TrimStart(s);
      var r := TrimEnd(t);
      var i := |s| - |t|;
      && i + |r| <= |s|
      && s[i..i + |r|] == r
      && AllSpace(s[..i])
      && AllSpace(s[i + |r|..])
  {
    var t := TrimStart(s);
    StripSlices(s, t, TrimEnd(t));
  }

  lemma StripSlices(s: string, t: string, r: string)
    requires |t| <= |s| && t == s[|s| - |t|..]
    requires |r| <= |t| && r == t[..|r|] && AllSpace(t[|r|..])
    ensures var i := |s| - |t|;
      && s[i..i + |r|] == r
      && AllSpace(s[i + |r|..])
  {
    var i := |s| - |t|;
    assert s[i..i + |r|] == t[..|r|];
    assert s[i + |r|..] == t[|r|..];
  }

  lemma StripTrimmed(t: string, r: string)
    requires t == [] || !IsSpace(t[0])
    requires |r| <= |t| && r == t[..|r|]
    requires r == [] || !IsSpace(r[|r| - 1])
    ensures Trimmed(r)
  {
    if r != [] {
      assert r[0] == t[0];
    }
  }

  lemma TrimmedIsStripped(s: string)
    ensures Trimmed(s) ==> TrimEnd(TrimStart(s)) == s
  {
    if Trimmed(s) && s != [] {
      assert TrimStart(s) == s;
      assert TrimEnd(s) == s;
    }
  }

  /** The non-whitespace characters of `s`, in order. */
  function NonSpace(s: string): seq<char> {
    if s == [] then []
    else (if IsSpace(s[0]) then [] else [s[0]]) + NonSpace(s[1..])
  }

  /** `NonSpace` of a concatenation is the concatenation of the two. */
  lemma {:induction false} NonSpaceAppend(a: string, b: string)
    ensures NonSpace(a + b) == NonSpace(a) + NonSpace(b)
    decreases |a|
  {
    if a == [] {
      assert a + b == b;
    } else {
      assert (a + b)[0] == a[0] && (a + b)[1..] == a[1..] + b;
      NonSpaceAppend(a[1..], b);
    }
  }

  /** A run of whitespace has no non-whitespace characters. */
  lemma {:induction false} NonSpaceAllSpace(s: string)
    requires AllSpace(s)
    ensures NonSpace(s) == []
    decreases |s|
  {
    if s != [] {
      NonSpaceAllSpace(s[1..]);
    }
  }

  /** `lstrip` drops whitespace only. */
  lemma NonSpaceTrimStart(s: string)
    ensures NonSpace(TrimStart(s)) == NonSpace(s)
  {
    var t := TrimStart(s);
    var i := |s| - |t|;
    assert s == s[..i] + t;
    NonSpaceAppend(s[..i], t);
    NonSpaceAllSpace(s[..i]);
  }

  /** `rstrip` drops whitespace only. */
  lemma NonSpaceTrimEnd(s: string)
    ensures NonSpace(TrimEnd(s)) == NonSpace(s)
  {
    var r := TrimEnd(s);
    assert s == r + s[|r|..];
    NonSpaceAppend(r, s[|r|..]);
    NonSpaceAllSpace(s[|r|..]);
  }

  /** `strip` drops whitespace only: the non-whitespace characters of the
      input are those of its strip, in the same order. */
  lemma NonSpaceStrip(s: string)
    ensures NonSpace(Strip(s)) == NonSpace(s)
  {
    var t := TrimStart(s);
    assert Strip(s) == TrimEnd(t);
    NonSpaceTrimStart(s);
    NonSpaceTrimEnd(t);
  }

  /** ASCII lower-casing, as `re.IGNORECASE` applies it to ASCII letters. */
  function Lower(c: char): (r: char)
    ensures 'A' <= c <= 'Z' ==> 'a' <= r <= 'z' && r as int == c as int + 32
    ensures !('A' <= c <= 'Z') ==> r == c
  {
    if 'A' <= c <= 'Z' then (c as int + 32) as char else c
  }

  /** The two strings are equal when ASCII letters are compared without case. */
  predicate SameIgnoringCase(a: string, b: string) {
    |a| == |b| && forall k | 0 <= k < |a| :: Lower(a[k]) == Lower(b[k])
  }

  predicate IsDigit(c: char) {
    '0' <= c <= '9'
  }

  predicate AllDigits(s: string) {
    forall k | 0 <= k < |s| :: IsDigit(s[k])
  }

  /** `str(n)` for a natural number. */
  function NatToString(n: nat): (r: string)
    ensures |r| >= 1 && AllDigits(r)
    ensures n >= 10 <==> |r| >= 2
    ensures |r| >= 2 ==> r[0] != '0'
    decreases n
  {
    var d := ['0' + (n % 10) as char];
    if n < 10 then d else NatToString(n / 10) + d
  }

  /** Reads back a string of decimal digits (Python's `int(s)`). */
  function ParseNat(s: string): nat
    requires AllDigits(s)
  {
    if s == [] then 0
    else ParseNat(s[..|s| - 1]) * 10 + (s[|s| - 1] - '0') as nat
  }

  /** `int(str(n)) == n`: decimal rendering loses nothing. */
  lemma {:induction false} ParseNatToString(n: nat)
    ensures ParseNat(NatToString(n)) == n
    decreases n
  {
    var r := NatToString(n);
    if n >= 10 {
      ParseNatToString(n / 10);
      assert r[..|r| - 1] == NatToString(n / 10);
    }
  }

  /** Distinct counters render as distinct strings. */
  lemma NatToStringInjective(m: nat, n: nat)
    requires NatToString(m) == NatToString(n)
    ensures m == n
  {
    ParseNatToString(m);
    ParseNatToString(n);
  }
}

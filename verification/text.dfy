/**
 The JavaScript string operations the converter relies on, with their edge
 cases written out: `lastIndexOf` answers -1 when the needle is absent, and
 `substring` clamps both indices into the string and swaps them when they are
 out of order. Also the decimal rendering of a page number inside a template
 string.
 */
module Text {

  /** `s.lastIndexOf(c)` for a one-character needle. */
  function LastIndexOf(s: string, c: char): (r: int)
    ensures -1 <= r < |s|
    ensures r == -1 <==> c !in s
    ensures r >= 0 ==> s[r] == c && c !in s[r + 1..]
  {
    if s == [] then -1
    else if s[|s| - 1] == c then |s| - 1
    else
      var r := LastIndexOf(s[..|s| - 1], c);
      assert r >= 0 ==> s[r + 1..] == s[..|s| - 1][r + 1..] + [s[|s| - 1]];
      assert s == s[..|s| - 1] + [s[|s| - 1]];
      r
  }

  /** An index clamped into [0, n], as `substring` treats its arguments. */
  function Clamp(i: int, n: nat): (r: nat)
    ensures r <= n
    ensures 0 <= i <= n ==> r == i
  {
    if i < 0 then 0 else if i > n then n else i
  }

  /** `s.substring(start, end)` */
  function Substring(s: string, start: int, end: int): (r: string)
    ensures 0 <= start <= end <= |s| ==> r == s[start..end]
    ensures end <= 0 ==> r == s[..Clamp(start, |s|)]
  {
    var a := Clamp(start, |s|);
    var b := Clamp(end, |s|);
    if a <= b then s[a..b] else s[b..a]
  }

  /** The order of the two indices does not matter. */
  lemma SubstringSwap(s: string, start: int, end: int)
    ensures Substring(s, start, end) == Substring(s, end, start)
  {
  }

  /** Text appended without the needle does not move the last occurrence. */
  lemma {:induction false} LastIndexOfAppend(p: string, q: string, c: char)
    requires c !in q
    ensures LastIndexOf(p + q, c) == LastIndexOf(p, c)
    decreases |q|
  {
    if q != [] {
      var q' := q[..|q| - 1];
      assert (p + q)[..|p + q| - 1] == p + q';
      assert (p + q)[|p + q| - 1] == q[|q| - 1];
      LastIndexOfAppend(p, q', c);
    } else {
      assert p + q == p;
    }
  }

  /** `s.endsWith(suffix)` */
  predicate EndsWith(s: string, suffix: string)
  {
    |suffix| <= |s| && s[|s| - |suffix|..] == suffix
  }

  /** A string ends with `suffix` exactly when it is something followed by `suffix`. */
  lemma EndsWithSplit(s: string, suffix: string)
    ensures EndsWith(s, suffix) <==> |suffix| <= |s| && s == s[..|s| - |suffix|] + suffix
  {
    if |suffix| <= |s| {
      assert s == s[..|s| - |suffix|] + s[|s| - |suffix|..];
    }
  }

  lemma EndsWithJoin(prefix: string, suffix: string)
    ensures EndsWith(prefix + suffix, suffix)
  {
    assert (prefix + suffix)[|prefix|..] == suffix;
  }

  /**
   The document name shown for an uploaded file:
   `name.substring(0, name.lastIndexOf("."))`, the part before the last dot,
   and the empty string when there is no dot (the -1 is clamped to 0).
   */
  function DerivedName(fileName: string): (name: string)
    ensures |name| <= |fileName|
    ensures '.' !in fileName ==> name == ""
    ensures '.' in fileName ==>
      && |name| < |fileName|
      && fileName[..|name|] == name
      && fileName[|name|] == '.'
      && '.' !in fileName[|name| + 1..]
  {
    Substring(fileName, 0, LastIndexOf(fileName, '.'))
  }

  /** Stripping the last extension: a stem joined to a dot-free extension gives the stem back. */
  lemma DerivedNameOfJoin(stem: string, ext: string)
    requires '.' !in ext
    ensures DerivedName(stem + "." + ext) == stem
  {
    var f := stem + "." + ext;
    LastIndexOfAppend(stem + ".", ext, '.');
    assert (stem + ".")[|stem|] == '.';
    assert LastIndexOf(f, '.') == |stem|;
    assert f[..|stem|] == stem;
  }

  /** A dotted file name is its derived name, a dot, and a dot-free extension. */
  lemma DerivedNameSplit(fileName: string)
    requires '.' in fileName
    ensures var name := DerivedName(fileName);
      fileName == name + "." + fileName[|name| + 1..] && '.' !in fileName[|name| + 1..]
  {
    var name := DerivedName(fileName);
    assert fileName == fileName[..|name|] + [fileName[|name|]] + fileName[|name| + 1..];
  }

  predicate IsDigit(c: char)
  {
    '0' <= c <= '9'
  }

  predicate AllDigits(s: string)
  {
    forall i :: 0 <= i < |s| ==> IsDigit(s[i])
  }

  function DigitChar(d: nat): (c: char)
    requires d < 10
    ensures IsDigit(c)
  {
    ('0' as int + d) as char
  }

  function DigitValue(c: char): (d: nat)
    requires IsDigit(c)
    ensures d < 10 && DigitChar(d) == c
  {
    (c as int - '0' as int) as nat
  }

  /** `${n}` for a non-negative integer: its decimal digits, without leading zeros. */
  function NatToString(n: nat): (s: string)
    ensures |s| > 0 && AllDigits(s)
    ensures |s| > 1 ==> s[0] != '0'
    decreases n
  {
    if n < 10 then [DigitChar(n)]
    else NatToString(n / 10) + [DigitChar(n % 10)]
  }

  /** The value of a string of decimal digits. */
  function ParseNat(s: string): nat
    requires AllDigits(s)
    decreases |s|
  {
    if s == [] then 0
    else ParseNat(s[..|s| - 1]) * 10 + DigitValue(s[|s| - 1])
  }

  lemma {:induction false} NatToStringRoundTrip(n: nat)
    ensures ParseNat(NatToString(n)) == n
    decreases n
  {
    var s := NatToString(n);
    if n < 10 {
      assert s[..0] == [];
    } else {
      NatToStringRoundTrip(n / 10);
      assert s[..|s| - 1] == NatToString(n / 10);
      assert DigitValue(s[|s| - 1]) == n % 10;
    }
  }

  /** Distinct page numbers give distinct decimal strings. */
  lemma NatToStringInjective(m: nat, n: nat)
    requires NatToString(m) == NatToString(n)
    ensures m == n
  {
    NatToStringRoundTrip(m);
    NatToStringRoundTrip(n);
  }

  /** Equal strings with a common prefix and suffix agree in the middle. */
  lemma SameFrame(prefix: string, a: string, b: string, suffix: string)
    requires prefix + a + suffix == prefix + b + suffix
    ensures a == b
  {
    var s := prefix + a + suffix;
    assert |a| == |b|;
    assert s[|prefix|..|prefix| + |a|] == a;
    assert (prefix + b + suffix)[|prefix|..|prefix| + |b|] == b;
  }
}

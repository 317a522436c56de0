/**
 * The few pieces of java.lang.String and java.lang.Integer that the merger
 * relies on, written out at the character level: `equalsIgnoreCase`
 * (restricted to ASCII letters), `trim`, `Integer.toString` for the promoted
 * heading level and `Integer.valueOf` for the one-digit level it reads.
 */
module JavaString {

  predicate IsDigit(c: char) {
    '0' <= c <= '9'
  }

  function ToUpperAscii(c: char): char {
    if 'a' <= c <= 'z' then (c as int - 32) as char else c
  }

  function ToLowerAscii(c: char): char {
    if 'A' <= c <= 'Z' then (c as int + 32) as char else c
  }

  /** The per-character test of `String.equalsIgnoreCase`, for ASCII letters. */
  predicate CharEqualsIgnoreCase(a: char, b: char) {
    a == b || ToUpperAscii(a) == ToUpperAscii(b) || ToLowerAscii(a) == ToLowerAscii(b)
  }

  /** `a.equalsIgnoreCase(b)`: same length and pairwise equal up to case. */
  predicate EqualsIgnoreCase(a: string, b: string) {
    |a| == |b| && forall i :: 0 <= i < |a| ==> CharEqualsIgnoreCase(a[i], b[i])
  }

  /** The comparison is an equivalence: reflexive, symmetric and transitive. */
  lemma EqualsIgnoreCaseIsEquivalence(a: string, b: string, c: string)
    ensures EqualsIgnoreCase(a, a)
    ensures EqualsIgnoreCase(a, b) ==> EqualsIgnoreCase(b, a)
    ensures EqualsIgnoreCase(a, b) && EqualsIgnoreCase(b, c) ==> EqualsIgnoreCase(a, c)
  {
    if EqualsIgnoreCase(a, b) && EqualsIgnoreCase(b, c) {
      forall i | 0 <= i < |a| ensures CharEqualsIgnoreCase(a[i], c[i]) {
        CharEqualsIgnoreCaseTransitive(a[i], b[i], c[i]);
      }
    }
  }

  lemma CharEqualsIgnoreCaseTransitive(a: char, b: char, c: char)
    requires CharEqualsIgnoreCase(a, b) && CharEqualsIgnoreCase(b, c)
    ensures CharEqualsIgnoreCase(a, c)
  {
  }

  /** The characters `String.trim` strips: every code point up to U+0020. */
  predicate IsTrimmed(c: char) {
    c <= ' '
  }

  /** Drops the leading run of characters at or below U+0020. */
  function TrimStart(s: string): (r: string)
    ensures |r| <= |s| && r == s[|s| - |r|..]
    ensures forall i :: 0 <= i < |s| - |r| ==> IsTrimmed(s[i])
    ensures |r| > 0 ==> !IsTrimmed(r[0])
  {
    if |s| > 0 && IsTrimmed(s[0]) then TrimStart(s[1..]) else s
  }

  /** Drops the trailing run of characters at or below U+0020. */
  function TrimEnd(s: string): (r: string)
    ensures |r| <= |s| && r == s[..|r|]
    ensures forall i :: |r| <= i < |s| ==> IsTrimmed(s[i])
    ensures |r| > 0 ==> !IsTrimmed(r[|r| - 1])
  {
    if |s| > 0 && IsTrimmed(s[|s| - 1]) then TrimEnd(s[..|s| - 1]) else s
  }

  /**
   * `s.trim()`: the slice of `s` left after removing leading and trailing
   * characters at or below U+0020. It is empty exactly when every character of
   * `s` is such a character.
   */
  function Trim(s: string): (r: string)
    ensures var lo := |s| - |TrimStart(s)|; lo + |r| <= |s| && r == s[lo..lo + |r|]
    ensures var lo := |s| - |TrimStart(s)|;
      (forall i :: 0 <= i < lo ==> IsTrimmed(s[i])) && (forall i :: lo + |r| <= i < |s| ==> IsTrimmed(s[i]))
    ensures |r| > 0 ==> !IsTrimmed(r[0]) && !IsTrimmed(r[|r| - 1])
    ensures |r| == 0 <==> forall i :: 0 <= i < |s| ==> IsTrimmed(s[i])
  {
    var t := TrimStart(s);
    var r := TrimEnd(t);
    TrimIsInnerSlice(s, t, r);
    r
  }

  /** The facts `TrimStart` and `TrimEnd` give, put together: `r` is the inner slice of `s` that `trim()` keeps. */
  lemma TrimIsInnerSlice(s: string, t: string, r: string)
    requires |t| <= |s| && t == s[|s| - |t|..] && (|t| > 0 ==> !IsTrimmed(t[0]))
    requires forall i :: 0 <= i < |s| - |t| ==> IsTrimmed(s[i])
    requires |r| <= |t| && r == t[..|r|] && (|r| > 0 ==> !IsTrimmed(r[|r| - 1]))
    requires forall i :: |r| <= i < |t| ==> IsTrimmed(t[i])
    ensures var lo := |s| - |t|; lo + |r| <= |s| && r == s[lo..lo + |r|]
    ensures var lo := |s| - |t|;
      (forall i :: 0 <= i < lo ==> IsTrimmed(s[i])) && (forall i :: lo + |r| <= i < |s| ==> IsTrimmed(s[i]))
    ensures |r| > 0 ==> !IsTrimmed(r[0]) && !IsTrimmed(r[|r| - 1])
    ensures |r| == 0 <==> forall i :: 0 <= i < |s| ==> IsTrimmed(s[i])
  {
    var lo := |s| - |t|;
    PrefixOfSuffix(s, t, r);
    TrailingTrimmed(s, t, |r|);
    if |r| > 0 {
      assert r[0] == t[0] && t[0] == s[lo];
    }
  }

  /** A prefix of a suffix of `s` is a slice of `s`. */
  lemma PrefixOfSuffix(s: string, t: string, r: string)
    requires |t| <= |s| && t == s[|s| - |t|..]
    requires |r| <= |t| && r == t[..|r|]
    ensures r == s[|s| - |t|..|s| - |t| + |r|]
  {
  }

  /** A trimmed tail `t[n..]` of the suffix `t` of `s` is a trimmed tail of `s`. */
  lemma TrailingTrimmed(s: string, t: string, n: nat)
    requires |t| <= |s| && t == s[|s| - |t|..] && n <= |t|
    requires forall i :: n <= i < |t| ==> IsTrimmed(t[i])
    ensures forall i :: |s| - |t| + n <= i < |s| ==> IsTrimmed(s[i])
  {
    var lo := |s| - |t|;
    forall i | lo + n <= i < |s| ensures IsTrimmed(s[i]) {
      assert IsTrimmed(t[i - lo]);
    }
  }

  function DigitChar(d: nat): (c: char)
    requires d < 10
    ensures IsDigit(c)
  {
    ('0' as int + d) as char
  }

  function DigitValue(c: char): (d: nat)
    requires IsDigit(c)
    ensures d < 10 && DigitChar(d) == c
  {
    c as int - '0' as int
  }

  /** `Integer.toString(n)` for a non-negative `n`: its decimal digits, no leading zero. */
  function DecimalString(n: nat): (r: string)
    ensures |r| > 0 && (|r| > 1 ==> r[0] != '0')
    ensures forall i :: 0 <= i < |r| ==> IsDigit(r[i])
  {
    if n < 10 then [DigitChar(n)] else DecimalString(n / 10) + [DigitChar(n % 10)]
  }

  /** `Integer.valueOf(s)` for a string of decimal digits. */
  function DecimalValue(s: string): nat
    requires forall i :: 0 <= i < |s| ==> IsDigit(s[i])
  {
    if |s| == 0 then 0 else 10 * DecimalValue(s[..|s| - 1]) + DigitValue(s[|s| - 1])
  }

  /** `Integer.valueOf(Integer.toString(n)) == n`. */
  lemma {:induction false} DecimalRoundTrip(n: nat)
    ensures DecimalValue(DecimalString(n)) == n
  {
    if n >= 10 {
      var r := DecimalString(n);
      assert r[..|r| - 1] == DecimalString(n / 10);
      DecimalRoundTrip(n / 10);
    }
  }
}

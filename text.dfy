/**
 * Character classes and decimal conversion shared by the string helpers.
 * Python's `\s` (and `str.strip()` / `str.isspace()`) is the set of characters
 * below; `\d` is restricted to the ASCII digits.
 */
module Text {

  predicate IsDigit(c: char) { '0' <= c <= '9' }

  predicate IsAsciiAlnum(c: char) {
    ('A' <= c <= 'Z') || ('a' <= c <= 'z') || IsDigit(c)
  }

  /**
   * The whitespace characters of Python's `str.isspace()` and of `\s` in a str
   * pattern: U+0009..U+000D, U+001C..U+0020, U+0085, U+00A0, U+1680,
   * U+2000..U+200A, U+2028, U+2029, U+202F, U+205F and U+3000.
   */
  predicate IsSpace(c: char) {
    ('\t' <= c <= '\r') || ('\U{1c}' <= c <= ' ') || c == '\U{85}' || c == '\U{a0}' || c == '\U{1680}'
    || ('\U{2000}' <= c <= '\U{200a}') || c == '\U{2028}' || c == '\U{2029}' || c == '\U{202f}'
    || c == '\U{205f}' || c == '\U{3000}'
  }

  predicate AllDigits(s: string) { forall i :: 0 <= i < |s| ==> IsDigit(s[i]) }

  predicate StartsWith(s: string, prefix: string) {
    |prefix| <= |s| && s[..|prefix|] == prefix
  }

  /** Number of leading digits of `s` (the length of a greedy `\d+` / `\d*` at the start). */
  function DigitRun(s: string): (n: nat)
    ensures n <= |s| && AllDigits(s[..n])
    ensures n < |s| ==> !IsDigit(s[n])
  {
    if s == [] || !IsDigit(s[0]) then 0
    else
      var n := 1 + DigitRun(s[1..]);
      assert s[..n] == [s[0]] + s[1..][..n - 1];
      n
  }

  /** Number of leading whitespace characters of `s` (a greedy `\s*` at the start). */
  function SpaceRun(s: string): (n: nat)
    ensures n <= |s| && forall i :: 0 <= i < n ==> IsSpace(s[i])
    ensures n < |s| ==> !IsSpace(s[n])
  {
    if s == [] || !IsSpace(s[0]) then 0 else 1 + SpaceRun(s[1..])
  }

  function DigitChar(d: nat): (c: char)
    requires d < 10
    ensures IsDigit(c)
  {
    "0123456789"[d]
  }

  function DigitValue(c: char): (d: nat)
    requires IsDigit(c)
    ensures d < 10
  {
    (c as int - '0' as int) as nat
  }

  /** `str(n)` for a non-negative Python int. */
  function NatToString(n: nat): (s: string)
    ensures |s| >= 1 && AllDigits(s)
    decreases n
  {
    if n < 10 then [DigitChar(n)] else NatToString(n / 10) + [DigitChar(n % 10)]
  }

  /** `int(s)` for a string of decimal digits (leading zeros allowed, as Python accepts them). */
  function ParseNat(s: string): nat
    requires AllDigits(s)
  {
    if s == [] then 0 else 10 * ParseNat(s[..|s| - 1]) + DigitValue(s[|s| - 1])
  }

  lemma {:induction false} ParseNatToString(n: nat)
    ensures ParseNat(NatToString(n)) == n
    decreases n
  {
    if n >= 10 {
      var s := NatToString(n);
      assert s[..|s| - 1] == NatToString(n / 10);
      ParseNatToString(n / 10);
    }
  }

  /** Distinct numbers print differently, so suffixes built from them never collide. */
  lemma NatToStringInjective(a: nat, b: nat)
    requires NatToString(a) == NatToString(b)
    ensures a == b
  {
    ParseNatToString(a);
    ParseNatToString(b);
  }

  /** End of the run of digits that starts at position i (a greedy `\d*` from i). */
  function DigitsFrom(s: string, i: nat): (e: nat)
    requires i <= |s|
    ensures i <= e <= |s|
    decreases |s| - i
  {
    if i < |s| && IsDigit(s[i]) then DigitsFrom(s, i + 1) else i
  }

  /** End of the run of whitespace that starts at position i (a greedy `\s*` from i). */
  function SpacesFrom(s: string, i: nat): (e: nat)
    requires i <= |s|
    ensures i <= e <= |s|
    decreases |s| - i
  {
    if i < |s| && IsSpace(s[i]) then SpacesFrom(s, i + 1) else i
  }

  /** A run that stops inside a common prefix stops at the same place in both strings. */
  lemma {:induction false} DigitsFromAgree(s: string, t: string, i: nat, k: nat)
    requires i <= k <= |s| && k <= |t| && s[..k] == t[..k]
    requires DigitsFrom(s, i) < k
    ensures DigitsFrom(t, i) == DigitsFrom(s, i)
    decreases |s| - i
  {
    assert s[i] == s[..k][i] == t[..k][i] == t[i];
    if IsDigit(s[i]) { DigitsFromAgree(s, t, i + 1, k); }
  }

  lemma {:induction false} SpacesFromAgree(s: string, t: string, i: nat, k: nat)
    requires i <= k <= |s| && k <= |t| && s[..k] == t[..k]
    requires SpacesFrom(s, i) < k
    ensures SpacesFrom(t, i) == SpacesFrom(s, i)
    decreases |s| - i
  {
    assert s[i] == s[..k][i] == t[..k][i] == t[i];
    if IsSpace(s[i]) { SpacesFromAgree(s, t, i + 1, k); }
  }

  /** The characters a digit run passes over are digits. */
  lemma {:induction false} DigitsFromAreDigits(s: string, i: nat)
    requires i <= |s|
    ensures forall j :: i <= j < DigitsFrom(s, i) ==> IsDigit(s[j])
    decreases |s| - i
  {
    if i < |s| && IsDigit(s[i]) { DigitsFromAreDigits(s, i + 1); }
  }

  lemma {:induction false} SpacesFromAreSpaces(s: string, i: nat)
    requires i <= |s|
    ensures forall j :: i <= j < SpacesFrom(s, i) ==> IsSpace(s[j])
    decreases |s| - i
  {
    if i < |s| && IsSpace(s[i]) { SpacesFromAreSpaces(s, i + 1); }
  }

  /** A run of digits from i that stops at j is the greedy run from i. */
  lemma {:induction false} DigitsFromExact(s: string, i: nat, j: nat)
    requires i <= j <= |s| && (forall k :: i <= k < j ==> IsDigit(s[k])) && (j == |s| || !IsDigit(s[j]))
    ensures DigitsFrom(s, i) == j
    decreases j - i
  {
    if i < j { DigitsFromExact(s, i + 1, j); }
  }

  lemma {:induction false} SpacesFromExact(s: string, i: nat, j: nat)
    requires i <= j <= |s| && (forall k :: i <= k < j ==> IsSpace(s[k])) && (j == |s| || !IsSpace(s[j]))
    ensures SpacesFrom(s, i) == j
    decreases j - i
  {
    if i < j { SpacesFromExact(s, i + 1, j); }
  }
}

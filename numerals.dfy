/** Digit values, digit strings and the decimal rendering of naturals: what
    the library's `parseInt` calls and the engine's array-index keys rest on. */
module Numerals {

  /** The value of `c` as a digit of radix up to 36 (letters of either case
      count from 10); 36 for any other character. */
  function DigitValue(c: char): (d: nat)
    ensures d <= 36
  {
    if '0' <= c <= '9' then c as int - '0' as int
    else if 'a' <= c <= 'z' then c as int - 'a' as int + 10
    else if 'A' <= c <= 'Z' then c as int - 'A' as int + 10
    else 36
  }

  predicate IsDigit(c: char, radix: nat) {
    DigitValue(c) < radix
  }

  predicate AllDigits(s: string, radix: nat) {
    forall i :: 0 <= i < |s| ==> IsDigit(s[i], radix)
  }

  /** The length of the longest prefix of `s` made of radix digits. */
  function DigitPrefix(s: string, radix: nat): (n: nat)
    ensures n <= |s|
    ensures n < |s| ==> !IsDigit(s[n], radix)
  {
    if |s| == 0 || !IsDigit(s[0], radix) then 0
    else 1 + DigitPrefix(s[1..], radix)
  }

  /** The prefix `DigitPrefix` measures is all digits. */
  lemma {:induction false} DigitPrefixDigits(s: string, radix: nat)
    ensures AllDigits(s[..DigitPrefix(s, radix)], radix)
    decreases |s|
  {
    if |s| > 0 && IsDigit(s[0], radix) {
      var n := DigitPrefix(s, radix);
      DigitPrefixDigits(s[1..], radix);
      assert forall i :: 1 <= i < n ==> s[..n][i] == s[1..][..n - 1][i - 1];
    }
  }

  /** The number a digit string denotes, most significant digit first. */
  function Value(s: string, radix: nat): nat
    decreases |s|
  {
    if |s| == 0 then 0
    else Value(s[..|s| - 1], radix) * radix + DigitValue(s[|s| - 1])
  }

  function DigitChar(d: nat): (c: char)
    requires d < 10
    ensures IsDigit(c, 10) && DigitValue(c) == d
  {
    ('0' as int + d) as char
  }

  /** The canonical decimal text of `n` (what `String(n)` gives). */
  function NatToString(n: nat): string
    decreases n
  {
    if n < 10 then [DigitChar(n)] else NatToString(n / 10) + [DigitChar(n % 10)]
  }

  /** The decimal text of `n` is a non-empty digit string without a leading
      zero (unless it is "0") that denotes `n`. */
  lemma {:induction false} NatToStringDigits(n: nat)
    ensures |NatToString(n)| >= 1
    ensures AllDigits(NatToString(n), 10)
    ensures NatToString(n)[0] == '0' <==> n == 0
    ensures |NatToString(n)| > 1 ==> NatToString(n)[0] != '0'
    ensures Value(NatToString(n), 10) == n
    decreases n
  {
    if n >= 10 {
      NatToStringDigits(n / 10);
      var s := NatToString(n / 10) + [DigitChar(n % 10)];
      assert s[..|s| - 1] == NatToString(n / 10);
      assert s[0] == NatToString(n / 10)[0];
    }
  }
}

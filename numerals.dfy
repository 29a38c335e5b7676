/**
 * Decimal rendering of an unsigned count, as `std::ostream << uint64_t`
 * writes it, with its inverse.
 */
module Numerals {

  predicate IsDigit(ch: char) {
    '0' <= ch <= '9'
  }

  predicate AllDigits(s: string) {
    forall i :: 0 <= i < |s| ==> IsDigit(s[i])
  }

  function DigitChar(d: nat): (ch: char)
    requires d < 10
    ensures IsDigit(ch)
    ensures ch as int - '0' as int == d
  {
    (d + '0' as int) as char
  }

  /** The decimal digits of `n`, most significant first, without leading zeros. */
  function NatToString(n: nat): (s: string)
    ensures |s| > 0 && AllDigits(s)
    ensures n < 10 <==> |s| == 1
    ensures n == 0 || s[0] != '0'
    decreases n
  {
    if n < 10 then [DigitChar(n)] else NatToString(n / 10) + [DigitChar(n % 10)]
  }

  /** The number a string of decimal digits denotes. */
  function DigitsValue(s: string): nat
    requires AllDigits(s)
  {
    if s == [] then 0
    else DigitsValue(s[..|s| - 1]) * 10 + (s[|s| - 1] as int - '0' as int)
  }

  /** Reading back the rendered digits gives the count that was written. */
  lemma {:induction false} ValueOfNatToString(n: nat)
    ensures DigitsValue(NatToString(n)) == n
    decreases n
  {
    var s := NatToString(n);
    if n >= 10 {
      ValueOfNatToString(n / 10);
      assert s[..|s| - 1] == NatToString(n / 10);
    }
  }

  /** Two different counts never render to the same text. */
  lemma NatToStringInjective(n: nat, m: nat)
    requires NatToString(n) == NatToString(m)
    ensures n == m
  {
    ValueOfNatToString(n);
    ValueOfNatToString(m);
  }

  /**
   * When text ending in a non-digit is followed by a run of digits, the split
   * between the two is determined by the whole string.
   */
  lemma DigitRunAtEnd(a: string, d: string, a': string, d': string)
    requires |a| > 0 && !IsDigit(a[|a| - 1]) && |d| > 0 && AllDigits(d)
    requires |a'| > 0 && !IsDigit(a'[|a'| - 1]) && |d'| > 0 && AllDigits(d')
    requires a + d == a' + d'
    ensures a == a' && d == d'
  {
    var s := a + d;
    assert !IsDigit(s[|a| - 1]) && !IsDigit(s[|a'| - 1]);
    assert forall i :: |a| <= i < |s| ==> IsDigit(s[i]);
    assert forall i :: |a'| <= i < |s| ==> IsDigit(s[i]);
    assert a == s[..|a|] == a';
    assert d == s[|a|..] == d';
  }

  /**
   * When a run of digits is followed by text starting with a non-digit, the
   * split between the two is determined by the whole string.
   */
  lemma DigitRunAtStart(d: string, b: string, d': string, b': string)
    requires |d| > 0 && AllDigits(d) && |b| > 0 && !IsDigit(b[0])
    requires |d'| > 0 && AllDigits(d') && |b'| > 0 && !IsDigit(b'[0])
    requires d + b == d' + b'
    ensures d == d' && b == b'
  {
    var s := d + b;
    assert !IsDigit(s[|d|]) && !IsDigit(s[|d'|]);
    assert forall i :: 0 <= i < |d| ==> IsDigit(s[i]);
    assert forall i :: 0 <= i < |d'| ==> IsDigit(s[i]);
    assert d == s[..|d|] == d';
    assert b == s[|d|..] == b';
  }
}

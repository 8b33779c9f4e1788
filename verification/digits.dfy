/**
 Fixed-width decimal rendering, the building block of the `MM`, `dd`, `yyyy`,
 `HH` and `mm` fields of a date-time pattern: a number is written in exactly
 `width` digits, most significant first, with leading zeros.
 */
module Digits {

  function Pow10(k: nat): (p: nat)
    ensures p >= 1
  {
    if k == 0 then 1 else 10 * Pow10(k - 1)
  }

  predicate IsDigit(c: char) {
    '0' <= c <= '9'
  }

  predicate AllDigits(s: string) {
    forall i | 0 <= i < |s| :: IsDigit(s[i])
  }

  /** The character of decimal digit `d`. */
  function DigitChar(d: nat): (c: char)
    requires d < 10
    ensures IsDigit(c)
  {
    ('0' as int + d) as char
  }

  /** The decimal digit character `c` stands for. */
  function DigitValue(c: char): (d: nat)
    requires IsDigit(c)
    ensures d < 10
    ensures DigitChar(d) == c
  {
    c as int - '0' as int
  }

  /** The number a string of decimal digits denotes, most significant digit first. */
  function DecimalValue(s: string): (n: nat)
    requires AllDigits(s)
    ensures n < Pow10(|s|)
  {
    if |s| == 0 then 0
    else
      var high := DecimalValue(s[..|s| - 1]);
      var low := DigitValue(s[|s| - 1]);
      assert high <= Pow10(|s| - 1) - 1;
      assert 10 * high <= 10 * Pow10(|s| - 1) - 10;
      10 * high + low
  }

  /** `n` written in exactly `width` decimal digits, padded with leading zeros. */
  function ZeroPad(n: nat, width: nat): (s: string)
    requires n < Pow10(width)
    ensures |s| == width
    ensures AllDigits(s)
    ensures DecimalValue(s) == n
  {
    if width == 0 then ""
    else
      assert n / 10 < Pow10(width - 1);
      var high := ZeroPad(n / 10, width - 1);
      var s := high + [DigitChar(n % 10)];
      assert s[..|s| - 1] == high;
      s
  }

  /** Two-digit zero padding, as in the `MM`, `dd`, `HH` and `mm` fields. */
  function Pad2(n: nat): (s: string)
    requires n < 100
    ensures |s| == 2 && AllDigits(s)
    ensures DecimalValue(s) == n
  {
    assert Pow10(2) == 100;
    ZeroPad(n, 2)
  }

  /** Four-digit zero padding, as in the `yyyy` field for years 1 to 9999. */
  function Pad4(n: nat): (s: string)
    requires n < 10000
    ensures |s| == 4 && AllDigits(s)
    ensures DecimalValue(s) == n
  {
    assert Pow10(4) == 10000;
    ZeroPad(n, 4)
  }

  /** Division by ten splits off the last decimal digit. */
  lemma SplitLastDigit(high: nat, low: nat)
    requires low < 10
    ensures (10 * high + low) / 10 == high
    ensures (10 * high + low) % 10 == low
  {
  }

  /** Padding a digit string's value back to its own width gives the string back. */
  lemma {:induction false} ZeroPadOfDecimalValue(s: string)
    requires AllDigits(s)
    ensures ZeroPad(DecimalValue(s), |s|) == s
  {
    if |s| > 0 {
      var init := s[..|s| - 1];
      assert AllDigits(init);
      var high := DecimalValue(init);
      var low := DigitValue(s[|s| - 1]);
      ZeroPadOfDecimalValue(init);
      assert DecimalValue(s) == 10 * high + low;
      SplitLastDigit(high, low);
      assert s == init + [s[|s| - 1]];
    }
  }

  /** A two-digit string is the padding of its own value. */
  lemma Pad2OfDigits(p: string)
    requires |p| == 2 && AllDigits(p)
    ensures DecimalValue(p) < 100 && Pad2(DecimalValue(p)) == p
  {
    ZeroPadOfDecimalValue(p);
  }

  /** A four-digit string is the padding of its own value. */
  lemma Pad4OfDigits(p: string)
    requires |p| == 4 && AllDigits(p)
    ensures DecimalValue(p) < 10000 && Pad4(DecimalValue(p)) == p
  {
    ZeroPadOfDecimalValue(p);
  }
}

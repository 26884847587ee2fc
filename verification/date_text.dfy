/**
 The text PostgreSQL's TO_CHAR produces for the 'YYYY' and 'MM' patterns: the
 year and the month number in decimal, padded on the left with zeros to four
 and two characters. A year past 9999 keeps all its digits. The month filter
 compares these texts with the caller's strings, so what matters here is
 which numbers a text can stand for: `DigitsValue` reads the text back, and
 the round trip makes the formatting injective.
 */
module DateText {

  predicate IsDigit(c: char) {
    '0' <= c <= '9'
  }

  predicate AllDigits(s: string) {
    forall i :: 0 <= i < |s| ==> IsDigit(s[i])
  }

  function DigitChar(d: nat): (c: char)
    requires d < 10
    ensures IsDigit(c) && c as int - '0' as int == d
  {
    ('0' as int + d) as char
  }

  /** The decimal digits of `n`, most significant first, with no leading zero. */
  function Decimal(n: nat): (r: string)
    ensures 1 <= |r| && AllDigits(r)
  {
    if n < 10 then [DigitChar(n)] else Decimal(n / 10) + [DigitChar(n % 10)]
  }

  function Zeros(k: nat): (r: string)
    ensures |r| == k && forall i :: 0 <= i < k ==> r[i] == '0'
  {
    seq(k, _ => '0')
  }

  /** `n` in decimal, padded on the left with zeros to at least `width` characters. */
  function ZeroPadded(n: nat, width: nat): string {
    var digits := Decimal(n);
    if |digits| >= width then digits else Zeros(width - |digits|) + digits
  }

  /** TO_CHAR(timestamp, 'YYYY'): at least four digits that read back as the year. */
  function YearText(year: nat): (r: string)
    ensures |r| >= 4 && AllDigits(r) && DigitsValue(r) == year
  {
    ZeroPaddedRoundTrip(year, 4);
    ZeroPadded(year, 4)
  }

  /** TO_CHAR(timestamp, 'MM'): at least two digits that read back as the month. */
  function MonthText(month: nat): (r: string)
    ensures |r| >= 2 && AllDigits(r) && DigitsValue(r) == month
  {
    ZeroPaddedRoundTrip(month, 2);
    ZeroPadded(month, 2)
  }

  /** The number a string of decimal digits denotes. */
  function DigitsValue(s: string): nat
    requires AllDigits(s)
  {
    if s == [] then 0 else DigitsValue(s[..|s| - 1]) * 10 + (s[|s| - 1] as int - '0' as int)
  }

  function Pow10(k: nat): nat {
    if k == 0 then 1 else 10 * Pow10(k - 1)
  }

  /** Reading the digits of `n` back gives `n`. */
  lemma {:induction false} DecimalRoundTrip(n: nat)
    ensures DigitsValue(Decimal(n)) == n
  {
    if n >= 10 {
      var d := Decimal(n);
      assert d[..|d| - 1] == Decimal(n / 10);
      DecimalRoundTrip(n / 10);
    }
  }

  /** Leading zeros do not change the number a digit string denotes. */
  lemma {:induction false} LeadingZerosIgnored(k: nat, s: string)
    requires AllDigits(s)
    ensures AllDigits(Zeros(k) + s)
    ensures DigitsValue(Zeros(k) + s) == DigitsValue(s)
    decreases |s| + k
  {
    var z := Zeros(k) + s;
    if s == [] {
      assert z == Zeros(k);
      if k > 0 {
        assert z[..|z| - 1] == Zeros(k - 1) + [];
        LeadingZerosIgnored(k - 1, []);
      }
    } else {
      assert z[..|z| - 1] == Zeros(k) + s[..|s| - 1];
      LeadingZerosIgnored(k, s[..|s| - 1]);
    }
  }

  /** A padded number reads back as itself and is at least `width` long. */
  lemma ZeroPaddedRoundTrip(n: nat, width: nat)
    ensures AllDigits(ZeroPadded(n, width))
    ensures DigitsValue(ZeroPadded(n, width)) == n
    ensures |ZeroPadded(n, width)| >= width
  {
    DecimalRoundTrip(n);
    var digits := Decimal(n);
    if |digits| < width {
      LeadingZerosIgnored(width - |digits|, digits);
    }
  }

  /** Different numbers never print the same padded text. */
  lemma ZeroPaddedInjective(a: nat, b: nat, width: nat)
    ensures ZeroPadded(a, width) == ZeroPadded(b, width) <==> a == b
  {
    ZeroPaddedRoundTrip(a, width);
    ZeroPaddedRoundTrip(b, width);
  }

  /** `n` has at most `k` decimal digits exactly when it is below 10^k. */
  lemma {:induction false} DecimalLength(n: nat, k: nat)
    requires 1 <= k
    ensures |Decimal(n)| <= k <==> n < Pow10(k)
    decreases k
  {
    if n >= 10 && k > 1 {
      DecimalLength(n / 10, k - 1);
    } else if n >= 10 {
      assert Pow10(1) == 10;
      assert |Decimal(n)| == |Decimal(n / 10)| + 1;
    } else if k > 1 {
      PowAtLeastTen(k);
    } else {
      assert Pow10(1) == 10;
    }
  }

  lemma {:induction false} PowAtLeastTen(k: nat)
    requires 1 <= k
    ensures Pow10(k) >= 10
  {
    if k > 1 {
      PowAtLeastTen(k - 1);
    }
  }

  /** 'YYYY' is exactly four characters for years 1 to 9999 and longer after. */
  lemma YearTextLength(year: nat)
    ensures year <= 9999 ==> |YearText(year)| == 4
    ensures year > 9999 ==> |YearText(year)| > 4
  {
    DecimalLength(year, 4);
    assert Pow10(4) == 10000;
  }

  /** 'MM' is exactly two characters for every month number up to 99. */
  lemma MonthTextLength(month: nat)
    requires month <= 99
    ensures |MonthText(month)| == 2
  {
    DecimalLength(month, 2);
    assert Pow10(2) == 100;
  }
}

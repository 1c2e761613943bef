/** Text of numbers, as Python's format codes write it. */
module Numerals {

  const DIGITS: string := "0123456789abcdef"

  /** `n` in decimal or hexadecimal, most significant digit first, without
      leading zeros. */
  function Numeral(n: nat, base: nat): (s: string)
    requires base == 10 || base == 16
    ensures |s| >= 1
  {
    if n < base then [DIGITS[n]] else Numeral(n / base, base) + [DIGITS[n % base]]
  }

  lemma DigitsDistinct(i: nat, j: nat)
    requires i < 16 && j < 16 && DIGITS[i] == DIGITS[j]
    ensures i == j
  {
  }

  lemma {:induction false} NumeralInjective(m: nat, n: nat, base: nat)
    requires base == 10 || base == 16
    requires Numeral(m, base) == Numeral(n, base)
    ensures m == n
  {
    var s, t := Numeral(m, base), Numeral(n, base);
    LastDigit(m, base);
    LastDigit(n, base);
    DigitsDistinct(m % base, n % base);
    if m >= base && n >= base {
      NumeralInjective(m / base, n / base, base);
    }
  }

  lemma LastDigit(n: nat, base: nat)
    requires base == 10 || base == 16
    ensures var s := Numeral(n, base);
      && s[|s| - 1] == DIGITS[n % base]
      && (|s| == 1 <==> n < base)
      && (n >= base ==> s[..|s| - 1] == Numeral(n / base, base))
  {
    if n < base {
      assert n % base == n;
    }
  }

  /** Hexadecimal text has at most `width` digits exactly below 16^width. */
  lemma {:induction false} HexWidth(n: nat)
    ensures |Numeral(n, 16)| <= 4 <==> n < 65536
  {
    assert |Numeral(n, 16)| <= 1 <==> n < 16;
    assert |Numeral(n / 16, 16)| <= 1 <==> n / 16 < 16;
    assert |Numeral(n / 16 / 16, 16)| <= 1 <==> n / 16 / 16 < 16;
    assert |Numeral(n / 16 / 16 / 16, 16)| <= 1 <==> n / 16 / 16 / 16 < 16;
  }

  lemma {:induction false} DecimalDigits(n: nat, i: nat)
    requires i < |Numeral(n, 10)|
    ensures '0' <= Numeral(n, 10)[i] <= '9'
  {
    assert forall d :: 0 <= d < 10 ==> '0' <= DIGITS[d] <= '9';
    if n >= 10 && i < |Numeral(n, 10)| - 1 {
      DecimalDigits(n / 10, i);
    }
  }
}

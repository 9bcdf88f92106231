/**
 * Powers of ten and the number of decimal digits of a natural number, shared by the
 * stone splitting of day 11 and the digit concatenation of day 7.
 */
module Decimal {
  import opened Text

  function Pow10(k: nat): (r: nat)
    ensures r >= 1
  {
    if k == 0 then 1 else 10 * Pow10(k - 1)
  }

  /** Powers of ten grow with the exponent. */
  lemma {:induction false} Pow10Monotone(a: nat, b: nat)
    requires a <= b
    ensures Pow10(a) <= Pow10(b)
    decreases b - a
  {
    if a < b {
      Pow10Monotone(a, b - 1);
    }
  }

  /** Exponents add under multiplication. */
  lemma {:induction false} Pow10Add(a: nat, b: nat)
    ensures Pow10(a + b) == Pow10(a) * Pow10(b)
  {
    if b > 0 {
      Pow10Add(a, b - 1);
      assert Pow10(a + b) == 10 * Pow10(a + b - 1);
    }
  }

  /** The greatest power of ten below `2^63`. */
  lemma Pow10Of18()
    ensures Pow10(18) == 1_000_000_000_000_000_000
  {
    assert Pow10(6) == 1_000_000;
    Pow10Add(6, 6);
    Pow10Add(12, 6);
  }

  /** The number of digits of `n` in its shortest decimal form. */
  function Digits(n: nat): (d: nat)
    ensures d >= 1
  {
    |NatToString(n)|
  }

  /** `n` has `d` digits exactly when it lies in `[10^(d-1), 10^d)`, or is 0 with `d == 1`. */
  lemma {:induction false} DigitsBounds(n: nat)
    ensures n < Pow10(Digits(n))
    ensures n >= 10 ==> Pow10(Digits(n) - 1) <= n
  {
    if n >= 10 {
      DigitsBounds(n / 10);
      assert Digits(n) == Digits(n / 10) + 1;
    }
  }

  /** The digit count is the unique `d` with `10^(d-1) <= n < 10^d`, for `n > 0`. */
  lemma DigitsUnique(n: nat, d: nat)
    requires d >= 1 && Pow10(d - 1) <= n < Pow10(d)
    ensures Digits(n) == d
  {
    DigitsBounds(n);
    var e := Digits(n);
    if e < d {
      Pow10Monotone(e, d - 1);
    } else if e > d {
      Pow10Monotone(d, e - 1);
    }
  }

  /** Decimal forms are words: non-empty and free of whitespace. */
  lemma {:induction false} DigitsNoSpace(s: string)
    requires AllDigits(s)
    ensures NoAsciiSpace(s)
  {
    if s != [] {
      assert IsDigit(s[0]);
      DigitsNoSpace(s[1..]);
    }
  }

  /** Shifting `l` left by the digits of `r` and adding `r` writes the two numbers side by side. */
  lemma {:induction false} NatToStringConcat(l: nat, r: nat)
    requires l >= 1
    ensures NatToString(l * Pow10(Digits(r)) + r) == NatToString(l) + NatToString(r)
    decreases r
  {
    var d := Digits(r);
    var n := l * Pow10(d) + r;
    if r < 10 {
      assert d == 1;
      assert n == 10 * l + r;
      assert n / 10 == l && n % 10 == r;
    } else {
      var p := l * Pow10(d - 1);
      assert Digits(r) == Digits(r / 10) + 1;
      assert n == 10 * p + r by {
        assert Pow10(d) == 10 * Pow10(d - 1);
      }
      assert r == 10 * (r / 10) + r % 10;
      assert n / 10 == p + r / 10 && n % 10 == r % 10;
      NatToStringConcat(l, r / 10);
    }
  }
}

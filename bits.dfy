/**
 * Rust's fixed-width integers as bounded naturals and integers, and the bitwise
 * operators `|`, `&`, `^`, `<<`, `>>` on them, defined bit by bit.
 */
module Bits {
  const U8_LIMIT: nat := 0x100
  const U16_LIMIT: nat := 0x1_0000
  const U32_LIMIT: nat := 0x1_0000_0000
  const U64_LIMIT: nat := 0x1_0000_0000_0000_0000
  const I32_MIN: int := -0x8000_0000
  const I32_MAX: int := 0x7fff_ffff
  const I64_MIN: int := -0x8000_0000_0000_0000
  const I64_MAX: int := 0x7fff_ffff_ffff_ffff

  predicate IsI32(v: int) { I32_MIN <= v <= I32_MAX }
  predicate IsI64(v: int) { I64_MIN <= v <= I64_MAX }

  function Pow2(k: nat): (r: nat)
    ensures r >= 1
  {
    if k == 0 then 1 else 2 * Pow2(k - 1)
  }

  /** `u64` holds exactly the naturals below `2^64`. */
  lemma Pow2Value64()
    ensures Pow2(64) == U64_LIMIT
  {
    assert Pow2(2) == 4;
    assert Pow2(4) == 16 by { Pow2Add(2, 2); }
    assert Pow2(8) == 256 by { Pow2Add(4, 4); }
    assert Pow2(16) == 256 * 256 by { Pow2Add(8, 8); }
    assert Pow2(32) == 0x1_0000_0000 by { Pow2Add(16, 16); }
    Pow2Add(32, 32);
  }

  /** Bit `i` of `a`. */
  predicate TestBit(a: nat, i: nat) { (a / Pow2(i)) % 2 == 1 }

  /** `a | b`. */
  function Or(a: nat, b: nat): nat
    decreases a + b
  {
    if a == 0 && b == 0 then 0 else 2 * Or(a / 2, b / 2) + (if a % 2 == 1 || b % 2 == 1 then 1 else 0)
  }

  /** `a & b`. */
  function And(a: nat, b: nat): nat
    decreases a + b
  {
    if a == 0 || b == 0 then 0 else 2 * And(a / 2, b / 2) + (if a % 2 == 1 && b % 2 == 1 then 1 else 0)
  }

  /** `a ^ b`. */
  function Xor(a: nat, b: nat): nat
    decreases a + b
  {
    if a == 0 && b == 0 then 0 else 2 * Xor(a / 2, b / 2) + (if a % 2 != b % 2 then 1 else 0)
  }

  /** `a << k` in a type `width` bits wide: the bits shifted past the top are lost. */
  function Shl(a: nat, k: nat, width: nat): nat
  {
    (a * Pow2(k)) % Pow2(width)
  }

  /** `a >> k`. */
  function Shr(a: nat, k: nat): nat
  {
    var p := Pow2(k);
    DivBound(a, p);
    a / p
  }

  function Abs(v: int): nat { if v < 0 then -v else v }

  /** Rust's `/` on signed integers: the quotient rounded toward zero. */
  function TruncDiv(a: int, b: int): int
    requires b != 0
  {
    var q := Abs(a) / Abs(b);
    if (a < 0) != (b < 0) then -q else q
  }

  /** Rust's `%` on signed integers: the remainder takes the sign of the dividend. */
  function TruncRem(a: int, b: int): (r: int)
    requires b != 0
    ensures a == b * TruncDiv(a, b) + r
    ensures Abs(r) < Abs(b) && (a >= 0 ==> r >= 0) && (a <= 0 ==> r <= 0)
  {
    var m := Abs(a) % Abs(b);
    assert Abs(a) == Abs(b) * (Abs(a) / Abs(b)) + m;
    if a < 0 then -m else m
  }

  // ---------------------------------------------------------------- bit by bit

  lemma Pow2Add(j: nat, k: nat)
    ensures Pow2(j + k) == Pow2(j) * Pow2(k)
  {
    if j > 0 { Pow2Add(j - 1, k); }
  }

  lemma Pow2Monotone(j: nat, k: nat)
    requires j <= k
    ensures Pow2(j) <= Pow2(k)
  {
    if j < k { Pow2Monotone(j, k - 1); }
  }

  /** Bit `i + 1` of `a` is bit `i` of `a / 2`. */
  lemma TestBitHalf(a: nat, i: nat)
    ensures TestBit(a, i + 1) == TestBit(a / 2, i)
  {
    DivDiv(a, 2, Pow2(i));
  }

  lemma DivDiv(a: nat, b: nat, c: nat)
    requires b > 0 && c > 0
    ensures a / (b * c) == (a / b) / c
  {
    var q, r := a / b, a % b;
    var q2, r2 := q / c, q % c;
    Regroup(a, b, c, q, r, q2, r2);
    DivUnique(a, b * c, q2, b * r2 + r);
  }

  lemma Regroup(a: nat, b: nat, c: nat, q: nat, r: nat, q2: nat, r2: nat)
    requires a == b * q + r && q == c * q2 + r2 && r < b && r2 < c
    ensures a == (b * c) * q2 + (b * r2 + r) && b * r2 + r < b * c
  {
    assert b * q == b * (c * q2) + b * r2;
    assert b * (c * q2) == (b * c) * q2;
    assert b * r2 <= b * (c - 1) by { MulMono(b, r2, c - 1); }
    assert b * (c - 1) == b * c - b;
  }

  lemma DivUnique(a: nat, d: nat, q: nat, r: nat)
    requires d > 0 && r < d && a == d * q + r
    ensures a / d == q && a % d == r
  {
    var q0, r0 := a / d, a % d;
    assert a == d * q0 + r0;
    if q0 < q {
      MulAtLeast(d, q - q0);
      assert false;
    } else if q0 > q {
      MulAtLeast(d, q0 - q);
      assert false;
    }
  }

  /** Dafny's `/` and `%` are Euclidean: any quotient and remainder in `0..d` are those. */
  lemma ModUnique(a: int, d: nat, q: int, r: int)
    requires d > 0 && 0 <= r < d && a == d * q + r
    ensures a / d == q && a % d == r
  {
    var q0, r0 := a / d, a % d;
    assert a == d * q0 + r0;
    if q0 < q {
      MulAtLeast(d, q - q0);
      assert false;
    } else if q0 > q {
      MulAtLeast(d, q0 - q);
      assert false;
    }
  }

  lemma MulMono(b: nat, x: nat, y: nat)
    requires x <= y
    ensures b * x <= b * y
  {
    assert b * y == b * x + b * (y - x);
  }

  lemma MulAtLeast(d: nat, k: nat)
    requires k >= 1
    ensures d * k >= d
  {
    assert d * k == d + d * (k - 1);
  }

  /** A left shift that loses no bit multiplies by `2^k`. */
  lemma ShlNoLoss(a: nat, k: nat, width: nat)
    requires a * Pow2(k) < Pow2(width)
    ensures Shl(a, k, width) == a * Pow2(k)
  {
    DivUnique(a * Pow2(k), Pow2(width), 0, a * Pow2(k));
  }

  /** `a >> k` is at most `a`. */
  lemma ShrBound(a: nat, k: nat)
    ensures Shr(a, k) <= a
  {
    DivBound(a, Pow2(k));
  }

  lemma DivBound(a: nat, p: nat)
    requires p >= 1
    ensures 0 <= a / p <= a
  {
    var q: int, r := a / p, a % p;
    assert a == p * q + r;
    MulAtLeast(q, p);
    assert q * p == p * q;
  }

  lemma TestBitZero(a: nat)
    ensures TestBit(a, 0) == (a % 2 == 1)
  {
    assert Pow2(0) == 1;
  }

  lemma {:induction false} OrBit(a: nat, b: nat, i: nat)
    ensures TestBit(Or(a, b), i) == (TestBit(a, i) || TestBit(b, i))
    decreases i
  {
    if a == 0 && b == 0 {
    } else if i == 0 {
    } else {
      TestBitHalf(Or(a, b), i - 1);
      TestBitHalf(a, i - 1);
      TestBitHalf(b, i - 1);
      OrBit(a / 2, b / 2, i - 1);
    }
  }

  lemma {:induction false} AndBit(a: nat, b: nat, i: nat)
    ensures TestBit(And(a, b), i) == (TestBit(a, i) && TestBit(b, i))
    decreases i
  {
    if a == 0 || b == 0 {
      DivUnique(0, Pow2(i), 0, 0);
      assert And(a, b) == 0;
    } else if i == 0 {
      TestBitZero(a);
      TestBitZero(b);
      TestBitZero(And(a, b));
    } else {
      TestBitHalf(And(a, b), i - 1);
      TestBitHalf(a, i - 1);
      TestBitHalf(b, i - 1);
      AndBit(a / 2, b / 2, i - 1);
    }
  }

  lemma {:induction false} XorBit(a: nat, b: nat, i: nat)
    ensures TestBit(Xor(a, b), i) == (TestBit(a, i) != TestBit(b, i))
    decreases i
  {
    if a == 0 && b == 0 {
      DivUnique(0, Pow2(i), 0, 0);
    } else if i == 0 {
      TestBitZero(a);
      TestBitZero(b);
      TestBitZero(Xor(a, b));
    } else {
      TestBitHalf(Xor(a, b), i - 1);
      TestBitHalf(a, i - 1);
      TestBitHalf(b, i - 1);
      XorBit(a / 2, b / 2, i - 1);
    }
  }

  /** Two numbers below `2^n` with the same low `n` bits are equal. */
  lemma {:induction false} BitsDetermine(a: nat, b: nat, n: nat)
    requires a < Pow2(n) && b < Pow2(n)
    requires forall i :: 0 <= i < n ==> TestBit(a, i) == TestBit(b, i)
    ensures a == b
  {
    if n > 0 {
      forall i | 0 <= i < n - 1 ensures TestBit(a / 2, i) == TestBit(b / 2, i) {
        TestBitHalf(a, i);
        TestBitHalf(b, i);
      }
      BitsDetermine(a / 2, b / 2, n - 1);
      assert TestBit(a, 0) == TestBit(b, 0);
    }
  }

  /** A number below `2^n` has no bit at `n` or above. */
  lemma NoHighBits(a: nat, n: nat, i: nat)
    requires a < Pow2(n) && n <= i
    ensures !TestBit(a, i)
  {
    Pow2Monotone(n, i);
    DivUnique(a, Pow2(i), 0, a);
  }

  lemma {:induction false} OrBound(a: nat, b: nat, n: nat)
    requires a < Pow2(n) && b < Pow2(n)
    ensures Or(a, b) < Pow2(n)
  {
    if n > 0 && !(a == 0 && b == 0) { OrBound(a / 2, b / 2, n - 1); }
  }

  lemma {:induction false} XorBound(a: nat, b: nat, n: nat)
    requires a < Pow2(n) && b < Pow2(n)
    ensures Xor(a, b) < Pow2(n)
  {
    if n > 0 && !(a == 0 && b == 0) { XorBound(a / 2, b / 2, n - 1); }
  }

  lemma {:induction false} AndBound(a: nat, b: nat)
    ensures And(a, b) <= a
    decreases a + b
  {
    if a != 0 && b != 0 { AndBound(a / 2, b / 2); }
  }

  /** Masking with `2^k - 1` keeps the low `k` bits. */
  lemma {:induction false} AndLowMask(a: nat, k: nat)
    ensures And(a, Pow2(k) - 1) == a % Pow2(k)
  {
    if k == 0 {
      assert Pow2(0) - 1 == 0;
    } else if a == 0 {
      DivUnique(0, Pow2(k), 0, 0);
    } else {
      var m := Pow2(k) - 1;
      assert m == 2 * (Pow2(k - 1) - 1) + 1;
      DivUnique(m, 2, Pow2(k - 1) - 1, 1);
      assert And(a, m) == 2 * And(a / 2, m / 2) + (if a % 2 == 1 then 1 else 0);
      AndLowMask(a / 2, k - 1);
      ModHalf(a, k);
    }
  }

  /** Masking with `2^k - 1` keeps a number below `2^k` whole. */
  lemma AndLowMaskBelow(a: nat, k: nat)
    requires a < Pow2(k)
    ensures And(a, Pow2(k) - 1) == a
  {
    AndLowMask(a, k);
    DivUnique(a, Pow2(k), 0, a);
  }

  lemma ModHalf(a: nat, k: nat)
    requires k > 0
    ensures a % Pow2(k) == 2 * ((a / 2) % Pow2(k - 1)) + a % 2
  {
    var p := Pow2(k - 1);
    var q := (a / 2) / p;
    var r := (a / 2) % p;
    assert a == 2 * (a / 2) + a % 2;
    assert a / 2 == p * q + r;
    assert a == (2 * p) * q + (2 * r + a % 2);
    DivUnique(a, 2 * p, q, 2 * r + a % 2);
  }

  /** Or-ing in bits above all the bits of `a` adds them. */
  lemma {:induction false} OrDisjoint(a: nat, m: nat, k: nat)
    requires a < Pow2(k)
    ensures Or(a, m * Pow2(k)) == a + m * Pow2(k)
  {
    if k == 0 {
      assert a == 0;
      OrZero(m);
    } else if !(a == 0 && m * Pow2(k) == 0) {
      assert m * Pow2(k) == 2 * (m * Pow2(k - 1));
      assert (m * Pow2(k)) / 2 == m * Pow2(k - 1);
      assert (m * Pow2(k)) % 2 == 0;
      OrDisjoint(a / 2, m, k - 1);
    }
  }

  lemma {:induction false} OrComm(a: nat, b: nat)
    ensures Or(a, b) == Or(b, a)
    decreases a + b
  {
    if !(a == 0 && b == 0) { OrComm(a / 2, b / 2); }
  }

  lemma {:induction false} OrZero(m: nat)
    ensures Or(0, m) == m
    decreases m
  {
    if m != 0 { OrZero(m / 2); }
  }
  /** No bit of zero is set. */
  lemma TestBitOfZero(i: nat)
    ensures !TestBit(0, i)
  {
  }

  /** `1 << k` in a type wider than `k` is `2^k`. */
  lemma ShlOne(k: nat, width: nat)
    requires k < width
    ensures Shl(1, k, width) == Pow2(k)
  {
    Pow2Monotone(k + 1, width);
    assert 1 * Pow2(k) < Pow2(width);
    ShlNoLoss(1, k, width);
  }

  /** The only bit of `2^k` is bit `k`. */
  lemma TestBitPow2(k: nat, i: nat)
    ensures TestBit(Pow2(k), i) <==> i == k
  {
    if i > k {
      Pow2Monotone(k + 1, i);
      DivUnique(Pow2(k), Pow2(i), 0, Pow2(k));
    } else {
      Pow2Add(i, k - i);
      DivUnique(Pow2(k), Pow2(i), Pow2(k - i), 0);
      if i < k {
        assert Pow2(k - i) == 2 * Pow2(k - i - 1);
      }
    }
  }

  /** Two numbers share no bit exactly when their `&` is zero. */
  lemma AndZeroIff(a: nat, b: nat, n: nat)
    requires a < Pow2(n)
    ensures And(a, b) == 0 <==> forall i :: 0 <= i < n ==> !(TestBit(a, i) && TestBit(b, i))
  {
    forall i | 0 <= i
      ensures TestBit(And(a, b), i) == (TestBit(a, i) && TestBit(b, i))
    {
      AndBit(a, b, i);
    }
    if forall i :: 0 <= i < n ==> !(TestBit(a, i) && TestBit(b, i)) {
      AndBound(a, b);
      forall i | 0 <= i < n ensures TestBit(And(a, b), i) == TestBit(0, i) {
        TestBitOfZero(i);
      }
      BitsDetermine(And(a, b), 0, n);
    }
  }
}

/**
 * Extrapolating the n-th value of a sequence that grows polynomially, from its
 * table of finite differences and Newton's backward formula.
 */
module Extrapolate {
  import opened Wrappers
  import opened Bits

  // ---------------------------------------------------------------- the difference table

  /** The first differences `s[i+1] - s[i]`. */
  function Deltas(s: seq<int>): (r: seq<int>)
    ensures |r| == if |s| == 0 then 0 else |s| - 1
  {
    if |s| <= 1 then [] else [s[1] - s[0]] + Deltas(s[1..])
  }

  /** The differences of order `j`. */
  function Diff(s: seq<int>, j: nat): (r: seq<int>)
    ensures |r| == if j <= |s| then |s| - j else 0
  {
    if j == 0 then s else Deltas(Diff(s, j - 1))
  }

  function Last(s: seq<int>): int
    requires |s| > 0
  {
    s[|s| - 1]
  }

  /** The latest difference of order `j`. */
  function DiagAt(s: seq<int>, j: nat): int
    requires j < |s|
  {
    Last(Diff(s, j))
  }

  /** The latest difference of each order `0..|s|`. */
  function Diagonal(s: seq<int>): (d: seq<int>)
    ensures |d| == |s|
  {
    seq(|s|, j requires 0 <= j < |s| => DiagAt(s, j))
  }

  /** The new latest difference of order `j` once `x` is appended to `s`. */
  function NextAt(s: seq<int>, x: int, j: nat): int
    requires j <= |s|
  {
    if j == 0 then x else NextAt(s, x, j - 1) - DiagAt(s, j - 1)
  }

  lemma {:induction false} DeltasSnoc(a: seq<int>, x: int)
    requires |a| >= 1
    ensures Deltas(a + [x]) == Deltas(a) + [x - Last(a)]
  {
    if |a| > 1 {
      assert (a + [x])[1..] == a[1..] + [x];
      DeltasSnoc(a[1..], x);
    }
  }

  lemma {:induction false} DiffSnoc(s: seq<int>, x: int, j: nat)
    requires j <= |s|
    ensures Diff(s + [x], j) == Diff(s, j) + [NextAt(s, x, j)]
  {
    if j > 0 {
      DiffSnoc(s, x, j - 1);
      DeltasSnoc(Diff(s, j - 1), NextAt(s, x, j - 1));
    }
  }

  /** Appending `x` turns the diagonal `d` into `x, x - d[0], (x - d[0]) - d[1], ...`. */
  lemma DiagonalSnoc(s: seq<int>, x: int)
    ensures forall j :: 0 <= j <= |s| ==> Diagonal(s + [x])[j] == NextAt(s, x, j)
  {
    forall j | 0 <= j <= |s| ensures Diagonal(s + [x])[j] == NextAt(s, x, j) {
      DiffSnoc(s, x, j);
    }
  }

  predicate AllNonneg(d: seq<int>)
  {
    forall j :: 0 <= j < |d| ==> d[j] >= 0
  }

  // ---------------------------------------------------------------- Newton's backward formula

  /** The binomial coefficient, by Pascal's rule. */
  function Binom(a: nat, b: nat): nat
  {
    if b == 0 then 1 else if a == 0 then 0 else Binom(a - 1, b - 1) + Binom(a - 1, b)
  }

  lemma Distrib(k: int, x: int, y: int)
    ensures k * (x + y) == k * x + k * y
  {
  }

  /** `C(a+1, 1) = a+1`. */
  lemma {:induction false} BinomOne(a: nat)
    ensures Binom(a + 1, 1) == a + 1
  {
    if a > 0 { BinomOne(a - 1); }
  }

  /** The absorption identity `(b+1)·C(a+1, b+1) = (a+1)·C(a, b)`. */
  lemma {:induction false} Absorb(a: nat, b: nat)
    ensures (b + 1) * Binom(a + 1, b + 1) == (a + 1) * Binom(a, b)
  {
    if a == 0 {
      if b > 0 { assert Binom(1, b + 1) == Binom(0, b) + Binom(0, b + 1); }
    } else if b == 0 {
      BinomOne(a);
    } else {
      // Pascal's rule on both sides, and the identity for `a - 1`.
      Absorb(a - 1, b);
      Absorb(a - 1, b - 1);
      var p, q := Binom(a - 1, b - 1), Binom(a - 1, b);
      var c, u := Binom(a, b), Binom(a, b + 1);
      assert c == p + q;
      assert Binom(a + 1, b + 1) == c + u;
      assert (b + 1) * u == a * q;
      assert b * c == a * p;
      Distrib(b + 1, c, u);
      Distrib(a, p, q);
      assert (b + 1) * c == b * c + c;
      assert (a + 1) * c == a * c + c;
    }
  }

  /** `Σ t[j] · C(m + i + j - 1, i + j)`: the terms of Newton's formula from order `i` on. */
  function NewtonSum(t: seq<nat>, m: nat, i: nat): nat
    requires m >= 1
  {
    if t == [] then 0 else t[0] * Binom(m + i - 1, i) + NewtonSum(t[1..], m, i + 1)
  }

  /** Trailing zero differences add nothing. */
  lemma {:induction false} NewtonSumZero(t: seq<nat>, m: nat, i: nat)
    requires m >= 1
    ensures NewtonSum(t + [0], m, i) == NewtonSum(t, m, i)
  {
    if t != [] {
      assert (t + [0])[1..] == t[1..] + [0];
      NewtonSumZero(t[1..], m, i + 1);
    }
  }

  /**
   * The `zip` of the differences with the lazily scanned multipliers `ms`, then `sum`:
   * `state` is the multiplier of `t[0]`, and the next is `state·(m+i)/(i+1)`, computed only
   * when another difference needs it.
   */
  function ScanSum(t: seq<nat>, m: nat, i: nat, state: nat): nat
  {
    if t == [] then 0
    else t[0] * state + (if |t| > 1 then DivBound(state * (m + i), i + 1); ScanSum(t[1..], m, i + 1, state * (m + i) / (i + 1)) else 0)
  }

  /** Each incremental multiplier is exact: the division leaves no remainder and gives the next binomial. */
  lemma MultiplierStep(m: nat, i: nat)
    requires m >= 1
    ensures Binom(m + i - 1, i) * (m + i) == Binom(m + i, i + 1) * (i + 1)
    ensures Binom(m + i - 1, i) * (m + i) / (i + 1) == Binom(m + i, i + 1)
  {
    Absorb(m + i - 1, i);
    ExactStep(Binom(m + i - 1, i), Binom(m + i, i + 1), m + i, i + 1);
  }

  /** From `d·b = n·a`: `a·n` divided by `d` is exactly `b`. */
  lemma ExactStep(a: nat, b: nat, n: nat, d: nat)
    requires d > 0 && d * b == n * a
    ensures a * n == b * d && a * n / d == b
  {
    ModUnique(a * n, d, b, 0);
  }

  /** The scanned multipliers are `C(m+i-1, i)`, so the sum is Newton's. */
  lemma {:induction false} ScanSumIsNewton(t: seq<nat>, m: nat, i: nat)
    requires m >= 1
    ensures ScanSum(t, m, i, Binom(m + i - 1, i)) == NewtonSum(t, m, i)
  {
    if |t| > 1 {
      MultiplierStep(m, i);
      ScanSumIsNewton(t[1..], m, i + 1);
    }
  }

  /** Every `usize` operation of the scan, the products and the sum stays below `2^64`. */
  predicate ScanFits(t: seq<nat>, m: nat, i: nat, state: nat)
  {
    t == [] ||
    (t[0] * state < U64_LIMIT &&
     (|t| > 1 ==> m + i < U64_LIMIT && state * (m + i) < U64_LIMIT &&
                  (DivBound(state * (m + i), i + 1); ScanFits(t[1..], m, i + 1, state * (m + i) / (i + 1)))))
  }

  /** `v` without its trailing zeros. */
  function TrimZeros(v: seq<nat>): (t: seq<nat>)
    ensures |t| <= |v| && t == v[..|t|] && (t == [] || t[|t| - 1] != 0)
    ensures forall j :: |t| <= j < |v| ==> v[j] == 0
  {
    if v != [] && v[|v| - 1] == 0 then TrimZeros(v[..|v| - 1]) else v
  }

  predicate Fits(v: seq<nat>, m: nat)
  {
    var t := TrimZeros(v);
    ScanFits(t, m, 0, 1) && ScanSum(t, m, 0, 1) < U64_LIMIT
  }

  /**
   * `from_diffv`: the zeros at the end are dropped, then the sum of `v[i]·C(m+i-1, i)`,
   * the value `m` places beyond the last one.
   */
  method FromDiffv(v: seq<nat>, m: nat) returns (r: nat)
    requires m >= 1 && Fits(v, m)
    ensures r == NewtonSum(v, m, 0)
  {
    var t := v;
    while |t| > 0 && t[|t| - 1] == 0
      invariant TrimZeros(t) == TrimZeros(v)
      invariant NewtonSum(t, m, 0) == NewtonSum(v, m, 0)
      decreases |t|
    {
      assert t == t[..|t| - 1] + [0];
      NewtonSumZero(t[..|t| - 1], m, 0);
      t := t[..|t| - 1];
    }
    ScanSumIsNewton(t, m, 0);
    r := ScanSum(t, m, 0, 1);
  }

  // ---------------------------------------------------------------- extending a closed table

  /**
   * The latest differences once one more value is taken, when the highest one stays as it
   * is: each entry gains the new entry above it.
   */
  function Extended(d: seq<int>): (r: seq<int>)
    ensures |r| == |d|
  {
    if |d| <= 1 then d else var up := Extended(d[1..]); [d[0] + up[0]] + up
  }

  /** `Extended` applied `m` times. */
  function ExtendedTimes(d: seq<int>, m: nat): (r: seq<int>)
    ensures |r| == |d|
  {
    if m == 0 then d else Extended(ExtendedTimes(d, m - 1))
  }

  /** A diagonal that ends as `e` does and gains the entry above at each order is `Extended(e)`. */
  lemma {:induction false} ExtendedUnique(e: seq<int>, r: seq<int>)
    requires |r| == |e| >= 1 && r[|r| - 1] == e[|e| - 1]
    requires forall j :: 0 <= j < |e| - 1 ==> r[j] == e[j] + r[j + 1]
    ensures r == Extended(e)
  {
    if |e| > 1 {
      ExtendedUnique(e[1..], r[1..]);
      assert r == [r[0]] + r[1..];
    }
  }

  /** The latest value is the first entry of the diagonal. */
  lemma DiagonalHead(s: seq<int>)
    requires |s| >= 1
    ensures Diagonal(s)[0] == s[|s| - 1]
  {
  }

  /**
   * Taking `x` when the differences of order `k` are zero before and after extends the
   * diagonal up to order `k` as `Extended` does.
   */
  lemma DiagonalExtends(s: seq<int>, x: int, k: nat)
    requires k < |s| && Diagonal(s)[k] == 0 && Diagonal(s + [x])[k] == 0
    ensures Diagonal(s + [x])[..k + 1] == Extended(Diagonal(s)[..k + 1])
  {
    DiagonalStep(s, x);
    var e, r := Diagonal(s)[..k + 1], Diagonal(s + [x])[..k + 1];
    forall j | 0 <= j < k ensures r[j] == e[j] + r[j + 1] {
      assert Diagonal(s + [x])[j + 1] == Diagonal(s + [x])[j] - Diagonal(s)[j];
    }
    ExtendedUnique(e, r);
  }

  /**
   * Taking the values `xs` after `s` while the differences of order `k` stay zero extends
   * the diagonal up to order `k` as `Extended` does, once per value.
   */
  lemma {:induction false} TableExtends(s: seq<int>, xs: seq<int>, k: nat)
    requires k < |s|
    requires forall i :: 0 <= i <= |xs| ==> Diagonal(s + xs[..i])[k] == 0
    ensures Diagonal(s + xs)[..k + 1] == ExtendedTimes(Diagonal(s)[..k + 1], |xs|)
  {
    if xs == [] {
      assert s + xs == s;
    } else {
      var n := |xs| - 1;
      var pre, x := xs[..n], xs[n];
      forall i | 0 <= i <= |pre| ensures Diagonal(s + pre[..i])[k] == 0 {
        assert pre[..i] == xs[..i];
      }
      TableExtends(s, pre, k);
      var t := s + pre;
      assert Diagonal(t)[k] == 0 by { assert xs[..n] == pre; }
      assert s + xs == t + [x] by { assert xs == pre + [x]; assert xs[..|xs|] == xs; }
      assert Diagonal(t + [x])[k] == 0 by { assert xs[..|xs|] == xs; }
      DiagonalExtends(t, x, k);
      calc {
        Diagonal(s + xs)[..k + 1];
        Diagonal(t + [x])[..k + 1];
        Extended(Diagonal(t)[..k + 1]);
        Extended(ExtendedTimes(Diagonal(s)[..k + 1], n));
      }
    }
  }

  /** Past the first entry, extending is extending the orders above. */
  lemma {:induction false} ExtendedTimesTail(d: seq<int>, m: nat)
    requires |d| >= 1
    ensures ExtendedTimes(d, m)[1..] == ExtendedTimes(d[1..], m)
  {
    if m > 0 {
      ExtendedTimesTail(d, m - 1);
    }
  }

  /** `C(i, i) = 1`. */
  lemma {:induction false} BinomDiag(i: nat)
    ensures Binom(i, i) == 1
  {
    if i > 0 {
      BinomDiag(i - 1);
      assert Binom(i - 1, i) == 0 by { BinomAbove(i - 1, i); }
    }
  }

  /** `C(a, b) = 0` when `b > a`. */
  lemma {:induction false} BinomAbove(a: nat, b: nat)
    requires b > a
    ensures Binom(a, b) == 0
  {
    if a > 0 {
      BinomAbove(a - 1, b - 1);
      BinomAbove(a - 1, b);
    }
  }

  /** With `m = 1` every multiplier is 1, whatever the starting order. */
  lemma {:induction false} NewtonSumOne(t: seq<nat>, i: nat)
    ensures NewtonSum(t, 1, i) == NewtonSum(t, 1, i + 1)
  {
    if t != [] {
      BinomDiag(i);
      BinomDiag(i + 1);
      NewtonSumOne(t[1..], i + 1);
    }
  }

  /** Pascal's rule, term by term: `N(t, m, i) = N(t, m - 1, i) + N(t, m, i - 1)`. */
  lemma {:induction false} NewtonPascal(t: seq<nat>, m: nat, i: nat)
    requires m >= 2 && i >= 1
    ensures NewtonSum(t, m, i) == NewtonSum(t, m - 1, i) + NewtonSum(t, m, i - 1)
  {
    if t != [] {
      NewtonPascal(t[1..], m, i + 1);
      var a, b := Binom(m + i - 2, i), Binom(m + i - 2, i - 1);
      assert Binom(m + i - 1, i) == b + a;
      Distrib(t[0], b, a);
    }
  }

  /** The first entry after `m` extensions is Newton's sum of the diagonal. */
  lemma {:induction false} ExtendedHead(d: seq<nat>, m: nat)
    requires |d| >= 1 && m >= 1
    ensures ExtendedTimes(d, m)[0] == NewtonSum(d, m, 0)
    decreases |d|, m
  {
    var e := ExtendedTimes(d, m - 1);
    ExtendedTimesTail(d, m);
    ExtendedTimesTail(d, m - 1);
    if |d| == 1 {
      assert ExtendedTimes(d, m)[0] == d[0] by { ExtendedTimesSingle(d, m); }
    } else {
      assert d[1..] != [];
      ExtendedHead(d[1..], m);
      assert ExtendedTimes(d, m)[0] == e[0] + ExtendedTimes(d[1..], m)[0] by {
        assert Extended(e)[0] == e[0] + Extended(e[1..])[0];
      }
      if m == 1 {
        NewtonSumOne(d[1..], 0);
      } else {
        ExtendedHead(d, m - 1);
        NewtonPascal(d[1..], m, 1);
      }
    }
  }

  /** A single entry never changes. */
  lemma {:induction false} ExtendedTimesSingle(d: seq<int>, m: nat)
    requires |d| == 1
    ensures ExtendedTimes(d, m) == d
  {
    if m > 0 {
      ExtendedTimesSingle(d, m - 1);
    }
  }

  /**
   * What `from_diffv` computes is the value `m` places beyond the last of `s` in the
   * polynomial continuation: if `v` is the diagonal of `s`, its top difference is zero,
   * and the values `xs` taken after `s` keep that order of difference zero, the `m`-th of
   * them is `NewtonSum(v, m, 0)`.
   */
  lemma FromClosedTable(s: seq<int>, v: seq<nat>, xs: seq<int>)
    requires |s| >= 1 && v == Diagonal(s)
    requires forall i :: 0 <= i <= |xs| ==> Diagonal(s + xs[..i])[|s| - 1] == 0
    requires |xs| >= 1
    ensures xs[|xs| - 1] == NewtonSum(v, |xs|, 0)
  {
    var k := |s| - 1;
    TableExtends(s, xs, k);
    assert v[..k + 1] == v;
    DiagonalHead(s + xs);
    ExtendedHead(v, |xs|);
  }

  // ---------------------------------------------------------------- nth

  /**
   * What `nth` returns when `k` values have been taken: none when the input has run out,
   * the value itself when it is the `n`-th, none when a difference on the new diagonal is
   * negative, and the extrapolation once the top difference is zero on two or more values.
   */
  function NthFrom(xs: seq<nat>, n: nat, k: nat): Option<nat>
    requires k <= n
    decreases n - k
  {
    if |xs| <= k then None
    else if n == k then Some(xs[k])
    else
      var d := Diagonal(xs[..k + 1]);
      if !AllNonneg(d) then None
      else if k >= 1 && d[k] == 0 then Some(NewtonSum(Naturals(d), n - k, 0))
      else NthFrom(xs, n, k + 1)
  }

  function Naturals(d: seq<int>): (r: seq<nat>)
    requires AllNonneg(d)
    ensures r == d
  {
    seq(|d|, j requires 0 <= j < |d| => d[j] as nat)
  }

  /** The `usize` arithmetic of the extrapolation `nth` ends with fits. */
  predicate NthFits(xs: seq<nat>, n: nat, k: nat)
    requires k <= n
    decreases n - k
  {
    if |xs| <= k || n == k then true
    else
      var d := Diagonal(xs[..k + 1]);
      if !AllNonneg(d) then true
      else if k >= 1 && d[k] == 0 then Fits(Naturals(d), n - k)
      else NthFits(xs, n, k + 1)
  }

  /** The new diagonal starts with `x`, and each next entry is the one before minus the old entry. */
  lemma DiagonalStep(s: seq<int>, x: int)
    ensures |Diagonal(s + [x])| == |s| + 1 && Diagonal(s + [x])[0] == x
    ensures forall j :: 0 <= j < |s| ==> Diagonal(s + [x])[j + 1] == Diagonal(s + [x])[j] - Diagonal(s)[j]
  {
    DiagonalSnoc(s, x);
    forall j | 0 <= j < |s| ensures Diagonal(s + [x])[j + 1] == Diagonal(s + [x])[j] - Diagonal(s)[j] {
      assert NextAt(s, x, j + 1) == NextAt(s, x, j) - DiagAt(s, j);
    }
  }

  /**
   * One round of `nth`'s loop after `x` is taken: each `v[i]` becomes the latest `i`-th
   * difference and the new highest-order difference is pushed; it fails (`?` on
   * `checked_sub`) when a difference would be negative.
   */
  method Advance(v: seq<nat>, ghost s: seq<int>, x: nat) returns (ok: bool, w: seq<nat>)
    requires v == Diagonal(s)
    ensures ok <==> AllNonneg(Diagonal(s + [x]))
    ensures ok ==> w == Diagonal(s + [x])
  {
    DiagonalStep(s, x);
    ghost var d := Diagonal(s + [x]);
    w := v;
    var x1 := x;
    var j := 0;
    while j < |w|
      invariant j <= |w| == |v| && |d| == |v| + 1 && x1 == d[j]
      invariant forall i :: 0 <= i < j ==> w[i] == d[i]
      invariant forall i :: j <= i < |w| ==> w[i] == v[i]
      invariant forall i :: 0 <= i <= j ==> d[i] >= 0
    {
      if x1 < w[j] {
        assert d[j + 1] < 0;
        return false, w;
      }
      var diff := x1 - w[j];
      w := w[j := x1];
      x1 := diff;
      j := j + 1;
    }
    w := w + [x1];
    assert w == d;
    ok := true;
  }

  /** `nth`: `xs` stands for the values the iterator yields. */
  method Nth(xs: seq<nat>, n: nat) returns (r: Option<nat>)
    requires NthFits(xs, n, 0)
    ensures r == NthFrom(xs, n, 0)
  {
    var v: seq<nat> := [];
    var k := 0;
    while true
      invariant k <= n && k <= |xs| && v == Diagonal(xs[..k])
      invariant NthFrom(xs, n, k) == NthFrom(xs, n, 0)
      invariant NthFits(xs, n, k)
      decreases n - k
    {
      if k >= |xs| { return None; }
      var x1 := xs[k];
      if n == k { return Some(x1); }
      assert xs[..k + 1] == xs[..k] + [x1];
      var ok;
      ok, v := Advance(v, xs[..k], x1);
      NthStep(xs, n, k, ok, v);
      if !ok { return None; }
      k := k + 1;
      if v[k - 1] == 0 && |v| > 1 {
        break;
      }
    }
    var nfwd := n - |v| + 1;
    NthEnd(xs, n, k - 1, v, nfwd);
    var value := FromDiffv(v, nfwd);
    r := Some(value);
  }

  /** `nth` stops past value `k` with a zero on top of two or more differences: it extrapolates from there. */
  lemma NthEnd(xs: seq<nat>, n: nat, k: nat, v: seq<nat>, m: int)
    requires k < n && k < |xs| && NthFits(xs, n, k) && NthFrom(xs, n, k) == NthFrom(xs, n, 0)
    requires v == Diagonal(xs[..k + 1]) && k >= 1 && v[k] == 0 && m == n - |v| + 1
    ensures m >= 1 && Fits(v, m) && NthFrom(xs, n, 0) == Some(NewtonSum(v, m, 0))
  {
    assert |v| == k + 1;
    assert m == n - k;
    NthStep(xs, n, k, true, v);
  }

  /** Past value `k` with an open table: either the extrapolation ends `nth`, or it goes on at `k + 1`. */
  lemma NthStep(xs: seq<nat>, n: nat, k: nat, ok: bool, v: seq<nat>)
    requires k < n && k < |xs| && NthFits(xs, n, k)
    requires ok <==> AllNonneg(Diagonal(xs[..k + 1]))
    requires ok ==> v == Diagonal(xs[..k + 1])
    ensures !ok ==> NthFrom(xs, n, k) == None
    ensures ok ==> |v| == k + 1
    ensures ok && v[k] == 0 && |v| > 1 ==> NthFrom(xs, n, k) == Some(NewtonSum(v, n - k, 0)) && Fits(v, n - k)
    ensures ok && !(v[k] == 0 && |v| > 1) ==> NthFrom(xs, n, k) == NthFrom(xs, n, k + 1) && NthFits(xs, n, k + 1)
  {
    if ok {
      assert AllNonneg(v);
    }
  }

  /** Taking value `i` leaves the table open: no negative difference, and no zero on top unless it is the first value. */
  predicate Continues(xs: seq<nat>, i: nat)
    requires i < |xs|
  {
    AllNonneg(Diagonal(xs[..i + 1])) && (i == 0 || Diagonal(xs[..i + 1])[i] != 0)
  }

  /** `nth` returns the `n`-th value itself when it is reached before the table closes. */
  lemma {:induction false} NthDirect(xs: seq<nat>, n: nat, k: nat)
    requires k <= n < |xs|
    requires forall i :: k <= i < n ==> Continues(xs, i)
    ensures NthFrom(xs, n, k) == Some(xs[n])
    decreases n - k
  {
    if k < n {
      assert Continues(xs, k);
      NthDirect(xs, n, k + 1);
    }
  }

  /** `nth` returns `None` when the input runs out before the table closes. */
  lemma {:induction false} NthRunsOut(xs: seq<nat>, n: nat, k: nat)
    requires k <= n && |xs| <= n
    requires forall i :: k <= i < |xs| ==> Continues(xs, i)
    ensures NthFrom(xs, n, k) == None
    decreases n - k
  {
    if k < |xs| {
      assert Continues(xs, k);
      NthRunsOut(xs, n, k + 1);
    }
  }

  /** `nth` passes over the values that leave the table open. */
  lemma {:induction false} NthSkip(xs: seq<nat>, n: nat, j: nat, k: nat)
    requires j <= k <= n && k < |xs|
    requires forall i :: j <= i < k ==> Continues(xs, i)
    ensures NthFrom(xs, n, j) == NthFrom(xs, n, k)
    decreases k - j
  {
    if j < k {
      assert Continues(xs, j);
      NthSkip(xs, n, j + 1, k);
    }
  }

  /**
   * When the table closes at value `k` before `n`, `nth` returns the value at `n` of the
   * continuation `ys` of `xs[..k + 1]` that keeps the differences of order `k` zero.
   */
  lemma NthContinuation(xs: seq<nat>, n: nat, k: nat, ys: seq<int>)
    requires 1 <= k < n && k < |xs|
    requires forall i :: 0 <= i < k ==> Continues(xs, i)
    requires AllNonneg(Diagonal(xs[..k + 1]))
    requires |ys| == n - k
    requires forall i :: 0 <= i <= |ys| ==> Diagonal(xs[..k + 1] + ys[..i])[k] == 0
    ensures NthFrom(xs, n, 0) == Some(ys[|ys| - 1])
  {
    NthSkip(xs, n, 0, k);
    assert ys[..0] == [] && xs[..k + 1] + [] == xs[..k + 1];
    var v := Naturals(Diagonal(xs[..k + 1]));
    FromClosedTable(xs[..k + 1], v, ys);
  }

  // ---------------------------------------------------------------- the examples

  lemma BinomTwo(a: nat)
    ensures 2 * Binom(a + 2, 2) == (a + 2) * (a + 1)
  {
    Absorb(a + 1, 1);
    BinomOne(a);
  }

  /** The first four diagonals of `26, 216, 588, 1142, 1878`; the fourth has a zero on top. */
  lemma ExampleTable(xs: seq<nat>)
    requires xs == [26, 216, 588, 1142, 1878]
    ensures Diagonal(xs[..1]) == [26]
    ensures Diagonal(xs[..2]) == [216, 190]
    ensures Diagonal(xs[..3]) == [588, 372, 182]
    ensures Diagonal(xs[..4]) == [1142, 554, 182, 0]
  {
    assert xs[..1] == [26];
    assert xs[..2] == [26] + [216];
    assert xs[..3] == [26, 216] + [588];
    assert xs[..4] == [26, 216, 588] + [1142];
    DiagonalSnoc([26], 216);
    DiagonalSnoc([26, 216], 588);
    DiagonalSnoc([26, 216, 588], 1142);
  }

  /** Past the fourth value the example is extrapolated from the closed table, for every `n`. */
  lemma ExampleClosed(xs: seq<nat>, n: nat)
    requires xs == [26, 216, 588, 1142, 1878] && n > 3
    ensures NthFrom(xs, n, 0) == Some(NewtonSum([1142, 554, 182, 0], n - 3, 0))
  {
    ExampleTable(xs);
    assert NthFrom(xs, n, 0) == NthFrom(xs, n, 1);
    assert NthFrom(xs, n, 1) == NthFrom(xs, n, 2);
    assert NthFrom(xs, n, 2) == NthFrom(xs, n, 3);
    assert Naturals([1142, 554, 182, 0]) == [1142, 554, 182, 0];
  }

  /** Newton's sum of the closed example table is the quadratic `1142 + 554 m + 91 m (m + 1)`. */
  lemma ExampleNewton(m: nat)
    requires m >= 1
    ensures NewtonSum([1142, 554, 182, 0], m, 0) == 1142 + 554 * m + 91 * (m * (m + 1))
  {
    var t := [1142, 554, 182, 0];
    assert t[1..] == [554, 182, 0] && t[1..][1..] == [182, 0] && t[1..][1..][1..] == [0];
    assert NewtonSum([0], m, 3) == 0;
    var b1, b2 := Binom(m, 1), Binom(m + 1, 2);
    assert NewtonSum([182, 0], m, 2) == 182 * b2;
    assert NewtonSum([554, 182, 0], m, 1) == 554 * b1 + 182 * b2;
    assert NewtonSum(t, m, 0) == 1142 + 554 * b1 + 182 * b2;
    BinomOne(m - 1);
    BinomTwo(m - 1);
    var q := 2 * b2;
    assert q == m * (m + 1);
    assert 182 * b2 == 91 * q;
  }

  /** The extrapolation is the quadratic through the table: `1142 + 554 m + 91 m (m + 1)` at `m = n - 3`. */
  lemma ExampleQuadratic(xs: seq<nat>, n: nat)
    requires xs == [26, 216, 588, 1142, 1878] && n > 3
    ensures NthFrom(xs, n, 0) == Some(1142 + 554 * (n - 3) + 91 * ((n - 3) * (n - 2)))
  {
    ExampleClosed(xs, n);
    ExampleNewton(n - 3);
    assert n - 2 == (n - 3) + 1;
  }

  /** The samples: the third value itself, and two values far outside the input. */
  lemma Examples(xs: seq<nat>)
    requires xs == [26, 216, 588, 1142, 1878]
    ensures NthFrom(xs, 2, 0) == Some(588)
    ensures NthFrom(xs, 30, 0) == Some(84896)
    ensures NthFrom(xs, 90, 0) == Some(746036)
  {
    ExampleTable(xs);
    assert NthFrom(xs, 2, 0) == NthFrom(xs, 2, 1);
    ExampleQuadratic(xs, 30);
    ExampleQuadratic(xs, 90);
  }
}

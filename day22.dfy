/**
 * Day 22: pseudo-random secrets. Each buyer's secret is mixed and pruned 2000 times;
 * the price on each step is the secret's last decimal digit. Part one adds up the
 * 2000th secrets; part two picks the window of four consecutive price changes that
 * earns the most bananas when each buyer sells at the first time the window appears.
 */
module Day22 {
  import opened Wrappers
  import opened Text
  import opened Bits

  const SECRETS_PER_DAY: nat := 2000
  const PRUNE: bv32 := 0xff_ffff

  // ---------------------------------------------------------------- secrets

  /** `s ^= s << 6; s &= PRUNE`: the left shift loses the bits past the 32nd, as on `u32`. */
  function Mix6(s: bv32): bv32 { (s ^ (s << 6)) & PRUNE }

  /** `s ^= s >> 5; s &= PRUNE`. */
  function Mix5(s: bv32): bv32 { (s ^ (s >> 5)) & PRUNE }

  /** `s ^= s << 11; s &= PRUNE`. */
  function Mix11(s: bv32): bv32 { (s ^ (s << 11)) & PRUNE }

  /** The three mixing steps of `step_secret`, each pruned to 24 bits. */
  function StepBits(s: bv32): (r: bv32)
    ensures r <= PRUNE
  {
    Mix11(Mix5(Mix6(s)))
  }

  /** Only the low 24 bits of a secret decide the next one. */
  lemma StepBitsLow(s: bv32)
    ensures StepBits(s) == StepBits(s & PRUNE)
  {
    assert Mix6(s) == Mix6(s & PRUNE);
  }

  /** `step_secret` on a secret that is a `u32`: the result is below `2^24`. */
  function StepSecret(s: nat): (r: nat)
    requires s < U32_LIMIT
    ensures r < 0x100_0000
  {
    (StepBits(s as bv32) as bv24) as nat
  }

  lemma StepSecretExample()
    ensures StepSecret(123) == 15887950
  {
  }

  /** The next three secrets from 123. */
  lemma StepSecretExamples()
    ensures StepSecret(15887950) == 16495136 && StepSecret(16495136) == 527345 && StepSecret(527345) == 704524
  {
    assert StepSecret(15887950) == 16495136;
    assert StepSecret(16495136) == 527345;
    assert StepSecret(527345) == 704524;
  }

  /** `secret_iter(s0)` at index `n`: the secret after `n` steps. */
  function Nth(s0: nat, n: nat): (r: nat)
    requires s0 < U32_LIMIT
    ensures r < U32_LIMIT && (n > 0 ==> r < 0x100_0000)
  {
    if n == 0 then s0 else StepSecret(Nth(s0, n - 1))
  }

  /** The loop `for _ in 0..n { s = step_secret(s) }`. */
  method SecretAfter(s0: nat, n: nat) returns (s: nat)
    requires s0 < U32_LIMIT
    ensures s == Nth(s0, n)
  {
    s := s0;
    for i := 0 to n
      invariant s == Nth(s0, i)
    {
      s := StepSecret(s);
    }
  }

  /** Every secret is a `u32`. */
  predicate AllU32(secrets: seq<nat>)
  {
    forall i :: 0 <= i < |secrets| ==> secrets[i] < U32_LIMIT
  }

  /** The sum of every buyer's secret after `n` steps. */
  function SumAfter(secrets: seq<nat>, n: nat): nat
    requires AllU32(secrets)
  {
    if secrets == [] then 0
    else SumAfter(secrets[..|secrets| - 1], n) + Nth(secrets[|secrets| - 1], n)
  }

  /** After at least one step every secret is below `2^24`, so is the sum for each buyer. */
  lemma {:induction false} SumAfterBound(secrets: seq<nat>, n: nat)
    requires AllU32(secrets) && n > 0
    ensures SumAfter(secrets, n) <= |secrets| * 0xff_ffff
  {
    if secrets != [] {
      SumAfterBound(secrets[..|secrets| - 1], n);
    }
  }

  /** `star1`: the sum of the 2000th secret of every buyer. */
  method Star1(secrets: seq<nat>) returns (r: nat)
    requires AllU32(secrets)
    ensures r == SumAfter(secrets, SECRETS_PER_DAY)
  {
    r := 0;
    for i := 0 to |secrets|
      invariant r == SumAfter(secrets[..i], SECRETS_PER_DAY)
    {
      var s := SecretAfter(secrets[i], SECRETS_PER_DAY);
      assert secrets[..i + 1][..i] == secrets[..i];
      r := r + s;
    }
    assert secrets[..|secrets|] == secrets;
  }

  // ---------------------------------------------------------------- prices and changes

  /** The prices of the first `n` secrets, each the last decimal digit of its secret. */
  function Prices(s0: nat, n: nat): (ps: seq<nat>)
    requires s0 < U32_LIMIT
    ensures |ps| == n && forall i :: 0 <= i < n ==> ps[i] == Nth(s0, i) % 10
  {
    seq(n, i requires 0 <= i < n => Nth(s0, i) % 10)
  }

  /** The `scan` of price changes: the first against a starting state of 0. */
  function Delta(ps: seq<nat>, n: nat): int
    requires n < |ps|
  {
    if n == 0 then ps[0] else ps[n] as int - ps[n - 1]
  }

  /** The last four price changes, oldest first, as `[i8; 4]`. */
  datatype Changes = Changes(d: seq<int>)

  /** `Changes::push`: the window moves on by one and `d` takes the newest place. */
  function Push(c: Changes, d: int): (r: Changes)
    requires |c.d| == 4
    ensures |r.d| == 4 && r.d == c.d[1..] + [d]
  {
    Changes([c.d[1], c.d[2], c.d[3], d])
  }

  /** The second `scan` of `price_changes_iter`: the window after the change at step `n`. */
  function Scan(ps: seq<nat>, n: nat): (c: Changes)
    requires n < |ps|
    ensures |c.d| == 4
  {
    var prev := if n == 0 then Changes([0, 0, 0, 0]) else Scan(ps, n - 1);
    Push(prev, Delta(ps, n))
  }

  /** The change `k` steps before step `n`, 0 before the first step. */
  function Back(ps: seq<nat>, n: nat, k: nat): int
    requires n < |ps|
  {
    if k <= n then Delta(ps, n - k) else 0
  }

  /** The last four changes up to step `n`, oldest first, padded with zeros at the start. */
  function Window(ps: seq<nat>, n: nat): (c: Changes)
    requires n < |ps|
  {
    Changes([Back(ps, n, 3), Back(ps, n, 2), Back(ps, n, 1), Delta(ps, n)])
  }

  /** The scan holds the last four changes at every step. */
  lemma {:induction false} ScanIsWindow(ps: seq<nat>, n: nat)
    requires n < |ps|
    ensures Scan(ps, n) == Window(ps, n)
  {
    if n > 0 {
      ScanIsWindow(ps, n - 1);
    }
  }

  /** The first five secrets from 123. */
  lemma NthExample()
    ensures Nth(123, 1) == 15887950 && Nth(123, 2) == 16495136
    ensures Nth(123, 3) == 527345 && Nth(123, 4) == 704524
  {
    StepSecretExample();
    StepSecretExamples();
    assert Nth(123, 1) == StepSecret(123);
    assert Nth(123, 2) == StepSecret(Nth(123, 1));
    assert Nth(123, 3) == StepSecret(Nth(123, 2));
    assert Nth(123, 4) == StepSecret(Nth(123, 3));
  }

  /**
   * The item after skipping four from 123, whose first five secrets end in the digits
   * 3, 0, 6, 5 and 4: the window `-3, 6, -1, -1` with price 4.
   */
  lemma PriceChangesExample()
    ensures PriceChanges([3, 0, 6, 5, 4])[4] == (Changes([-3, 6, -1, -1]), 4)
  {
  }

  /** The first items of `price_changes_iter`: each step's last four changes and its price. */
  function PriceChanges(ps: seq<nat>): (r: seq<(Changes, nat)>)
    ensures |r| == |ps| && forall i :: 0 <= i < |ps| ==> r[i] == (Window(ps, i), ps[i])
  {
    forall i | 0 <= i < |ps| ensures Scan(ps, i) == Window(ps, i) {
      ScanIsWindow(ps, i);
    }
    seq(|ps|, i requires 0 <= i < |ps| => (Scan(ps, i), ps[i]))
  }

  /** The `fold` of `map_changes`: each window keeps the price of its first item. */
  function FirstOccurrence<K>(items: seq<(K, nat)>): (m: map<K, nat>)
  {
    if items == [] then map[]
    else
      var m := FirstOccurrence(items[..|items| - 1]);
      var (c, p) := items[|items| - 1];
      if c in m then m else m[c := p]
  }

  /** The windows kept are the windows of the items. */
  lemma {:induction false} FirstOccurrenceKeys<K>(items: seq<(K, nat)>, c: K)
    ensures c in FirstOccurrence(items) <==> exists i :: 0 <= i < |items| && items[i].0 == c
  {
    if items != [] {
      var init := items[..|items| - 1];
      FirstOccurrenceKeys(init, c);
      if exists i :: 0 <= i < |init| && init[i].0 == c {
        var i :| 0 <= i < |init| && init[i].0 == c;
        assert items[i].0 == c;
      }
      if exists i :: 0 <= i < |items| && items[i].0 == c {
        var i :| 0 <= i < |items| && items[i].0 == c;
        if i < |init| { assert init[i].0 == c; }
      }
    }
  }

  /** A window no item holds is not kept. */
  lemma UnseenNotKept<K>(items: seq<(K, nat)>, c: K)
    requires forall j :: 0 <= j < |items| ==> items[j].0 != c
    ensures c !in FirstOccurrence(items)
  {
    FirstOccurrenceKeys(items, c);
  }

  /** Item `i` holds a window that the items before it have not kept. */
  predicate FirstAt<K(==)>(items: seq<(K, nat)>, i: nat)
  {
    i < |items| && items[i].0 !in FirstOccurrence(items[..i])
  }

  /** A window first seen at item `i` keeps the price of item `i`. */
  lemma {:induction false} FirstOccurrenceAt<K>(items: seq<(K, nat)>, i: nat)
    requires FirstAt(items, i)
    ensures items[i].0 in FirstOccurrence(items) && FirstOccurrence(items)[items[i].0] == items[i].1
  {
    var init := items[..|items| - 1];
    if i == |items| - 1 {
      assert init == items[..i];
    } else {
      assert init[..i] == items[..i] && init[i] == items[i];
      FirstOccurrenceAt(init, i);
    }
  }

  /** The `fold` of `map_changes` over the items of a list of prices, less the first four. */
  function FirstPrices(ps: seq<nat>): map<Changes, nat>
    requires |ps| >= 4
  {
    FirstOccurrence(PriceChanges(ps)[4..])
  }

  /** A window seen after the first four steps is kept. */
  lemma FirstPricesHas(ps: seq<nat>, i: nat)
    requires 4 <= i < |ps|
    ensures Window(ps, i) in FirstPrices(ps)
  {
    var items := PriceChanges(ps)[4..];
    assert items[i - 4].0 == Window(ps, i);
    FirstOccurrenceKeys(items, Window(ps, i));
  }

  /** Every window kept was seen after the first four steps. */
  lemma FirstPricesOnly(ps: seq<nat>, c: Changes) returns (i: nat)
    requires |ps| >= 4 && c in FirstPrices(ps)
    ensures 4 <= i < |ps| && Window(ps, i) == c
  {
    var items := PriceChanges(ps)[4..];
    FirstOccurrenceKeys(items, c);
    var k :| 0 <= k < |items| && items[k].0 == c;
    i := k + 4;
  }

  /** A window first seen at step `i` keeps the price of step `i`. */
  lemma FirstPricesAt(ps: seq<nat>, i: nat)
    requires 4 <= i < |ps| && forall j :: 4 <= j < i ==> Window(ps, j) != Window(ps, i)
    ensures Window(ps, i) in FirstPrices(ps) && FirstPrices(ps)[Window(ps, i)] == ps[i]
  {
    var items := PriceChanges(ps)[4..];
    FirstItems(ps, i, items);
    FirstOccurrenceAt(items, i - 4);
    FirstPricesOf(ps, i, items);
  }

  lemma FirstPricesOf(ps: seq<nat>, i: nat, items: seq<(Changes, nat)>)
    requires 4 <= i < |ps| && items == PriceChanges(ps)[4..]
    requires items[i - 4].0 in FirstOccurrence(items) && FirstOccurrence(items)[items[i - 4].0] == items[i - 4].1
    ensures Window(ps, i) in FirstPrices(ps) && FirstPrices(ps)[Window(ps, i)] == ps[i]
  {
  }

  /** A window first seen at step `i` is the window of no earlier item. */
  lemma FirstItems(ps: seq<nat>, i: nat, items: seq<(Changes, nat)>)
    requires 4 <= i < |ps| && forall j :: 4 <= j < i ==> Window(ps, j) != Window(ps, i)
    requires items == PriceChanges(ps)[4..]
    ensures |items| == |ps| - 4 && FirstAt(items, i - 4)
  {
    var c, pre := items[i - 4].0, items[..i - 4];
    forall j | 0 <= j < |pre| ensures pre[j].0 != c {
      assert pre[j] == items[j] && items[j].0 == Window(ps, j + 4) && c == Window(ps, i);
    }
    UnseenNotKept(pre, c);
  }

  /** A window is kept iff it is seen after the first four steps. */
  lemma FirstPricesKeys(ps: seq<nat>, c: Changes)
    requires |ps| >= 4
    ensures c in FirstPrices(ps) <==> exists i :: 4 <= i < |ps| && Window(ps, i) == c
  {
    if c in FirstPrices(ps) {
      var i := FirstPricesOnly(ps, c);
    }
    if exists i :: 4 <= i < |ps| && Window(ps, i) == c {
      var i :| 4 <= i < |ps| && Window(ps, i) == c;
      FirstPricesHas(ps, i);
    }
  }

  /** `map_changes`: the first 2000 prices of a buyer, their items folded. */
  function MapChanges(s0: nat): map<Changes, nat>
    requires s0 < U32_LIMIT
  {
    FirstPrices(Prices(s0, SECRETS_PER_DAY))
  }

  /** The price of `c` in `m`, 0 when it is missing. */
  function Get0(m: map<Changes, nat>, c: Changes): nat
  {
    if c in m then m[c] else 0
  }

  /**
   * `add_changes`: each entry of `add` is added to its entry in `m`, which starts at 0
   * when missing; the entries of `m` that `add` lacks are unchanged.
   */
  method AddChanges(m: map<Changes, nat>, add: map<Changes, nat>) returns (r: map<Changes, nat>)
    ensures forall c :: c in r <==> c in m || c in add
    ensures forall c :: Get0(r, c) == Get0(m, c) + Get0(add, c)
  {
    r := m;
    var todo := add.Keys;
    while todo != {}
      invariant todo <= add.Keys
      invariant forall c :: c in r <==> c in m || (c in add && c !in todo)
      invariant forall c :: Get0(r, c) == Get0(m, c) + (if c in todo then 0 else Get0(add, c))
      decreases todo
    {
      var c :| c in todo;
      r := r[c := Get0(r, c) + add[c]];
      todo := todo - {c};
    }
  }

  /** The bananas that window `c` earns over all buyers. */
  function Total(secrets: seq<nat>, c: Changes): nat
    requires AllU32(secrets)
  {
    if secrets == [] then 0
    else Total(secrets[..|secrets| - 1], c) + Get0(MapChanges(secrets[|secrets| - 1]), c)
  }

  /** `m.values().max().unwrap_or(0)`. */
  method MaxValue(m: map<Changes, nat>) returns (r: nat)
    ensures forall c :: c in m ==> m[c] <= r
    ensures m == map[] ==> r == 0
    ensures m != map[] ==> exists c :: c in m && m[c] == r
  {
    r := 0;
    var todo := m.Keys;
    var seen := false;
    while todo != {}
      invariant todo <= m.Keys
      invariant forall c :: c in m && c !in todo ==> m[c] <= r
      invariant seen <==> exists c :: c in m && c !in todo
      invariant seen ==> exists c :: c in m && m[c] == r
      invariant !seen ==> r == 0
      decreases todo
    {
      var c :| c in todo;
      if !seen || m[c] > r {
        r := m[c];
      }
      seen := true;
      todo := todo - {c};
    }
    if m != map[] {
      var c :| c in m;
    }
  }

  /**
   * `star2`: the most bananas any window earns over all buyers, 0 when there is no
   * window at all.
   */
  method Star2(secrets: seq<nat>) returns (r: nat)
    requires AllU32(secrets)
    ensures forall c :: Total(secrets, c) <= r
    ensures r == 0 || exists c :: Total(secrets, c) == r
  {
    var m: map<Changes, nat> := map[];
    for i := 0 to |secrets|
      invariant forall c :: Get0(m, c) == Total(secrets[..i], c)
    {
      m := AddChanges(m, MapChanges(secrets[i]));
      assert secrets[..i + 1][..i] == secrets[..i];
    }
    assert secrets[..|secrets|] == secrets;
    r := MaxValue(m);
    forall c ensures Total(secrets, c) <= r {
      assert Get0(m, c) == Total(secrets, c);
    }
    if r != 0 {
      var c :| c in m && m[c] == r;
      assert Get0(m, c) == Total(secrets, c);
    }
  }

  // ---------------------------------------------------------------- input

  /** `parse_input`: one `u32` per line; the first line that is not one is the error. */
  function ParseInput(ls: seq<string>): (r: Result<seq<nat>>)
    ensures r.Ok? <==> forall i :: 0 <= i < |ls| ==> ParseInt(ls[i], 0, U32_LIMIT - 1).Some?
    ensures r.Ok? ==> |r.value| == |ls| && AllU32(r.value)
    ensures r.Ok? ==> forall i :: 0 <= i < |ls| ==> r.value[i] == ParseInt(ls[i], 0, U32_LIMIT - 1).value
  {
    if ls == [] then Ok([])
    else
      match ParseInput(ls[..|ls| - 1])
      case Err(e) => Err(e)
      case Ok(init) =>
        match ParseInt(ls[|ls| - 1], 0, U32_LIMIT - 1)
        case None => Err(IntErrorMessage(IntErrorOf(ls[|ls| - 1], 0, U32_LIMIT - 1)))
        case Some(v) =>
          assert forall i :: 0 <= i < |ls| - 1 ==> ls[..|ls| - 1][i] == ls[i];
          Ok(init + [v])
  }

  /** The secrets written one per line parse back to the same secrets. */
  lemma ParseInputRoundTrip(secrets: seq<nat>)
    requires AllU32(secrets)
    ensures ParseInput(seq(|secrets|, i requires 0 <= i < |secrets| => IntToString(secrets[i]))) == Ok(secrets)
  {
    var ls := seq(|secrets|, i requires 0 <= i < |secrets| => IntToString(secrets[i]));
    forall i | 0 <= i < |ls| ensures ParseInt(ls[i], 0, U32_LIMIT - 1) == Some(secrets[i]) {
      ParseIntOfIntToString(secrets[i], 0, U32_LIMIT - 1);
    }
    var r := ParseInput(ls).value;
    assert forall i :: 0 <= i < |secrets| ==> r[i] == secrets[i];
    assert r == secrets;
  }
}

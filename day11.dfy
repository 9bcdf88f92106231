/**
 * Day 11: stones that change on every blink. A 0 becomes 1, a stone with an even number
 * of digits splits into its two halves, and any other stone is multiplied by 2024.
 * The answer is the number of stones after 25 and 75 blinks, counted with a memo.
 */
module Day11 {
  import opened Wrappers
  import opened Text
  import opened Bits
  import opened Decimal

  // ---------------------------------------------------------------- splitting

  /** The ceiling `split_stone` needs: from `10^18` on, its search overflows `u64`. */
  const SPLIT_LIMIT: nat := 1_000_000_000_000_000_000

  /** The two halves of a stone with an even number of digits. */
  function Halves(stone: nat): Option<(nat, nat)>
  {
    var d := Digits(stone);
    var p := Pow10(d / 2);
    DivBound(stone, p);
    if d % 2 == 0 then Some((stone / p, stone % p)) else None
  }

  /**
   * One candidate of `split_stone`'s search, for `n == 10^j`: the stone has `2j + 2`
   * digits when it lies in `[n*n*10, n*n*100)`, and is then cut at `n*10`.
   */
  function SplitSearch(stone: nat, j: nat): Option<(nat, nat)>
    requires stone < SPLIT_LIMIT && j <= 8
    decreases 8 - j
  {
    var n := Pow10(j);
    var divmod, lo, hi := n * 10, n * n * 10, n * n * 100;
    if lo > stone then None
    else if stone < hi then Some((stone / divmod, stone % divmod))
    else
      Pow10Squared(j);
      if j == 8 then None
      else SplitSearch(stone, j + 1)
  }

  /** `split_stone`: the search over `n = 1, 10, 100, ...` while `n*n*10 <= stone`. */
  function SplitStone(stone: nat): Option<(nat, nat)>
    requires stone < SPLIT_LIMIT
  {
    SplitSearch(stone, 0)
  }

  /** The products of the search are powers of ten. */
  lemma Pow10Squared(j: nat)
    ensures Pow10(j) * 10 == Pow10(j + 1)
    ensures Pow10(j) * Pow10(j) * 10 == Pow10(2 * j + 1)
    ensures Pow10(j) * Pow10(j) * 100 == Pow10(2 * j + 2)
  {
    Pow10Add(j, j);
    Pow10Add(2 * j, 1);
    Pow10Add(2 * j, 2);
    assert Pow10(2) == 100;
  }

  /** At step `j`, every stone with fewer than `2j + 1` digits has been ruled out. */
  lemma {:induction false} SplitSearchIsHalves(stone: nat, j: nat)
    requires stone < SPLIT_LIMIT && j <= 8
    requires j == 0 || Pow10(2 * j) <= stone
    ensures SplitSearch(stone, j) == Halves(stone)
    decreases 8 - j
  {
    Pow10Squared(j);
    var n := Pow10(j);
    if n * n * 10 > stone {
      assert SplitSearch(stone, j) == None;
      HalvesOdd(stone, j);
    } else if stone < n * n * 100 {
      assert SplitSearch(stone, j) == Some((stone / Pow10(j + 1), stone % Pow10(j + 1)));
      HalvesEven(stone, j);
    } else if j == 8 {
      Pow10Of18();
      assert false;
    } else {
      assert SplitSearch(stone, j) == SplitSearch(stone, j + 1);
      SplitSearchIsHalves(stone, j + 1);
    }
  }

  /** A stone with `2j + 1` digits, or the stone 0, does not split. */
  lemma HalvesOdd(stone: nat, j: nat)
    requires j == 0 || Pow10(2 * j) <= stone
    requires stone < Pow10(2 * j + 1)
    ensures Halves(stone) == None
  {
    if stone == 0 {
      assert Digits(0) == 1;
    } else if j == 0 {
      DigitsUnique(stone, 1);
    } else {
      DigitsUnique(stone, 2 * j + 1);
    }
  }

  /** A stone with `2j + 2` digits splits at `10^(j+1)`. */
  lemma HalvesEven(stone: nat, j: nat)
    requires Pow10(2 * j + 1) <= stone < Pow10(2 * j + 2)
    ensures Halves(stone) == Some((stone / Pow10(j + 1), stone % Pow10(j + 1)))
  {
    DigitsUnique(stone, 2 * j + 2);
    assert (2 * j + 2) / 2 == j + 1;
  }

  /** `split_stone` splits exactly the stones with an even number of digits, into their halves. */
  lemma SplitStoneIsHalves(stone: nat)
    requires stone < SPLIT_LIMIT
    ensures SplitStone(stone) == Halves(stone)
  {
    SplitSearchIsHalves(stone, 0);
  }

  /** The halves, written one after the other, give back the stone's digits. */
  lemma SplitHalves(stone: nat)
    requires Halves(stone).Some?
    ensures Halves(stone).value.0 * Pow10(Digits(stone) / 2) + Halves(stone).value.1 == stone
    ensures Halves(stone).value.1 < Pow10(Digits(stone) / 2)
    ensures Digits(stone) % 2 == 0
  {
  }

  // ---------------------------------------------------------------- blinking

  /** What one stone becomes after one blink. */
  function BlinkOne(stone: nat): (r: seq<nat>)
    ensures 1 <= |r| <= 2
  {
    if stone == 0 then [1]
    else match Halves(stone)
      case Some((l, r)) => [l, r]
      case None => [stone * 2024]
  }

  /** One blink of a row of stones: each is replaced in place, order kept. */
  function Blink(stones: seq<nat>): seq<nat>
  {
    if stones == [] then [] else Blink(stones[..|stones| - 1]) + BlinkOne(stones[|stones| - 1])
  }

  /** The row after `k` blinks. */
  function Blinks(stones: seq<nat>, k: nat): seq<nat>
    decreases k
  {
    if k == 0 then stones else Blinks(Blink(stones), k - 1)
  }

  /** The recursion of `blink_cached` without its memo. */
  function Count(stone: nat, count: nat): nat
    decreases count
  {
    if count == 0 then 1
    else if stone == 0 then Count(1, count - 1)
    else match Halves(stone)
      case Some((l, r)) => Count(l, count - 1) + Count(r, count - 1)
      case None => Count(stone * 2024, count - 1)
  }

  /** Stones blink independently. */
  lemma {:induction false} BlinkAppend(a: seq<nat>, b: seq<nat>)
    ensures Blink(a + b) == Blink(a) + Blink(b)
    decreases |b|
  {
    if b != [] {
      var init := b[..|b| - 1];
      assert (a + b)[..|a + b| - 1] == a + init;
      assert (a + b)[|a + b| - 1] == b[|b| - 1];
      BlinkAppend(a, init);
    } else {
      assert a + b == a;
    }
  }

  /** Rows blink independently for any number of blinks. */
  lemma {:induction false} BlinksAppend(a: seq<nat>, b: seq<nat>, k: nat)
    ensures Blinks(a + b, k) == Blinks(a, k) + Blinks(b, k)
    decreases k
  {
    if k > 0 {
      assert Blinks(a + b, k) == Blinks(Blink(a + b), k - 1);
      BlinkAppend(a, b);
      BlinksAppend(Blink(a), Blink(b), k - 1);
    }
  }

  /** One step of the recursion of `blink_cached` counts what the stone becomes. */
  lemma CountStep(stone: nat, count: nat)
    requires count > 0
    ensures Count(stone, count) == SumCount(BlinkOne(stone), count - 1)
  {
    if stone == 0 {
      SumCountOne(1, count - 1);
    } else {
      match Halves(stone)
      case Some((l, r)) =>
        SumCountTwo(l, r, count - 1);
      case None =>
        SumCountOne(stone * 2024, count - 1);
    }
  }

  lemma SumCountOne(x: nat, count: nat)
    ensures SumCount([x], count) == Count(x, count)
  {
    assert [x][..0] == [];
  }

  lemma SumCountTwo(x: nat, y: nat, count: nat)
    ensures SumCount([x, y], count) == Count(x, count) + Count(y, count)
  {
    assert [x, y][..1] == [x];
    SumCountOne(x, count);
  }

  /** The count of `blink_cached` is the number of stones one stone becomes after `count` blinks. */
  lemma {:induction false} CountIsLength(stone: nat, count: nat)
    ensures Count(stone, count) == |Blinks([stone], count)|
    decreases count, 0
  {
    if count > 0 {
      assert Blink([stone]) == BlinkOne(stone) by {
        assert [stone][..0] == [];
      }
      assert Blinks([stone], count) == Blinks(BlinkOne(stone), count - 1);
      CountStep(stone, count);
      SumCountIsLength(BlinkOne(stone), count - 1);
    }
  }

  /** The count over a row is the number of stones the row becomes. */
  lemma {:induction false} SumCountIsLength(stones: seq<nat>, count: nat)
    ensures SumCount(stones, count) == |Blinks(stones, count)|
    decreases count, |stones|
  {
    if stones != [] {
      var init := stones[..|stones| - 1];
      var last := stones[|stones| - 1];
      assert stones == init + [last];
      SumCountIsLength(init, count);
      CountIsLength(last, count);
      BlinksAppend(init, [last], count);
    } else {
      assert Blinks([], count) == [] by {
        BlinksEmpty(count);
      }
    }
  }

  lemma {:induction false} BlinksEmpty(k: nat)
    ensures Blinks([], k) == []
  {
    if k > 0 {
      BlinksEmpty(k - 1);
    }
  }

  /** `Count` summed over a row. */
  function SumCount(stones: seq<nat>, count: nat): nat
  {
    if stones == [] then 0 else SumCount(stones[..|stones| - 1], count) + Count(stones[|stones| - 1], count)
  }

  /** The memo of `blink_cached`: for each `(stone, count)` it holds, the count of `stone`. */
  class Memo {
    var m: map<(nat, nat), nat>

    constructor ()
      ensures m == map[]
    {
      m := map[];
    }

    /** The memo stores only computed counts. */
    predicate Valid()
      reads this
    {
      forall k :: k in m ==> m[k] == Count(k.0, k.1)
    }

    /** `blink_cached`: the count of `stone` after `count` blinks, filling the memo on the way. */
    method BlinkCached(stone: nat, count: nat) returns (n: nat)
      requires Valid()
      modifies this
      ensures Valid() && n == Count(stone, count)
      ensures old(m).Keys <= m.Keys
      decreases count
    {
      if count == 0 {
        return 1;
      }
      if (stone, count) in m {
        return m[(stone, count)];
      }
      if stone == 0 {
        n := BlinkCached(1, count - 1);
      } else if Halves(stone).Some? {
        var (l, r) := Halves(stone).value;
        var nl := BlinkCached(l, count - 1);
        var nr := BlinkCached(r, count - 1);
        n := nl + nr;
      } else {
        n := BlinkCached(stone * 2024, count - 1);
      }
      assert n == Count(stone, count);
      m := m[(stone, count) := n];
    }
  }

  /** `blink_stones`: the number of stones after `blink` blinks, with one memo for the row. */
  method BlinkStones(stones: seq<nat>, blink: nat) returns (r: nat)
    ensures r == |Blinks(stones, blink)|
  {
    var memo := new Memo();
    r := 0;
    for i := 0 to |stones|
      invariant memo.Valid()
      invariant r == SumCount(stones[..i], blink)
    {
      var n := memo.BlinkCached(stones[i], blink);
      assert stones[..i + 1][..i] == stones[..i];
      r := r + n;
    }
    assert stones[..|stones|] == stones;
    SumCountIsLength(stones, blink);
  }

  /** The halves of the stones in the source's tests. */
  lemma HalvesExamples()
    ensures Halves(1) == None && Halves(10) == Some((1, 0))
    ensures Halves(99) == Some((9, 9)) && Halves(999) == None
  {
    assert Digits(1) == 1 && Digits(10) == 2 && Digits(99) == 2 && Digits(999) == 3;
    assert Pow10(1) == 10;
  }

  /** The single-stone cases of the source's tests. */
  lemma CountExamples()
    ensures Count(0, 1) == 1 && Count(1, 1) == 1 && Count(10, 1) == 2
    ensures Count(99, 1) == 2 && Count(999, 1) == 1
  {
    HalvesExamples();
  }

  /** A row of one stone blinks into what that stone becomes. */
  lemma BlinkSingle(x: nat)
    ensures Blink([x]) == BlinkOne(x)
  {
    assert [x][..0] == [];
  }

  /** A row of five stones blinks stone by stone. */
  lemma BlinkFive(a: nat, b: nat, c: nat, d: nat, e: nat)
    ensures Blink([a, b, c, d, e]) == BlinkOne(a) + BlinkOne(b) + BlinkOne(c) + BlinkOne(d) + BlinkOne(e)
  {
    assert [a, b, c, d, e] == [a] + [b] + [c] + [d] + [e];
    BlinkAppend([a] + [b] + [c] + [d], [e]);
    BlinkAppend([a] + [b] + [c], [d]);
    BlinkAppend([a] + [b], [c]);
    BlinkAppend([a], [b]);
    BlinkSingle(a);
    BlinkSingle(b);
    BlinkSingle(c);
    BlinkSingle(d);
    BlinkSingle(e);
  }

  /** `0 1 10 99 999` becomes `1 2024 1 0 9 9 2021976` after one blink. */
  lemma BlinkExample()
    ensures Blink([0, 1, 10, 99, 999]) == [1, 2024, 1, 0, 9, 9, 2021976]
  {
    HalvesExamples();
    BlinkFive(0, 1, 10, 99, 999);
    assert BlinkOne(10) == [1, 0] && BlinkOne(99) == [9, 9];
    assert BlinkOne(1) == [2024] && BlinkOne(999) == [2021976];
  }

  /** So `blink_stones` of that row and one blink is 7. */
  lemma BlinkStonesExample()
    ensures |Blinks([0, 1, 10, 99, 999], 1)| == 7
  {
    BlinkExample();
  }

  // ---------------------------------------------------------------- input

  /** `parse_stones`: every whitespace-separated word as a `u64`, in order; the first bad word is the error. */
  function ParseStones(input: string): (r: Result<seq<nat>>)
    ensures r.Ok? <==> AllU64(Words(input))
    ensures r.Ok? ==> |r.value| == |Words(input)|
    ensures r.Ok? ==> forall i :: 0 <= i < |r.value| ==> r.value[i] == ParseInt(Words(input)[i], 0, U64_LIMIT - 1).value
  {
    var ws := Words(input);
    ParseWords(ws)
  }

  /** Every word reads as a `u64`. */
  predicate AllU64(ws: seq<string>)
  {
    forall i :: 0 <= i < |ws| ==> ParseInt(ws[i], 0, U64_LIMIT - 1).Some?
  }

  function ParseWords(ws: seq<string>): (r: Result<seq<nat>>)
    ensures r.Ok? <==> AllU64(ws)
    ensures r.Ok? ==> |r.value| == |ws|
    ensures r.Ok? ==> forall i :: 0 <= i < |ws| ==> r.value[i] == ParseInt(ws[i], 0, U64_LIMIT - 1).value
  {
    if ws == [] then Ok([])
    else
      match ParseWords(ws[..|ws| - 1])
      case Err(e) => Err(e)
      case Ok(init) =>
        match ParseInt(ws[|ws| - 1], 0, U64_LIMIT - 1)
        case None => Err(IntErrorMessage(IntErrorOf(ws[|ws| - 1], 0, U64_LIMIT - 1)))
        case Some(v) =>
          assert forall i :: 0 <= i < |ws| - 1 ==> ws[..|ws| - 1][i] == ws[i];
          Ok(init + [v])
  }

  lemma ParseWordsOfNats(stones: seq<nat>, ws: seq<string>)
    requires forall i :: 0 <= i < |stones| ==> stones[i] < U64_LIMIT
    requires |ws| == |stones| && forall i :: 0 <= i < |ws| ==> ws[i] == NatToString(stones[i])
    ensures ParseWords(ws) == Ok(stones)
  {
    forall i | 0 <= i < |ws| ensures ParseInt(ws[i], 0, U64_LIMIT - 1) == Some(stones[i]) {
      ParseIntOfIntToString(stones[i], 0, U64_LIMIT - 1);
    }
    var r := ParseWords(ws).value;
    assert forall i :: 0 <= i < |stones| ==> r[i] == stones[i];
    assert r == stones;
  }

  /** Stones written with single spaces between them parse back to the same stones. */
  lemma ParseStonesRoundTrip(stones: seq<nat>)
    requires forall i :: 0 <= i < |stones| ==> stones[i] < U64_LIMIT
    ensures ParseStones(Join(seq(|stones|, i requires 0 <= i < |stones| => NatToString(stones[i])), " ")) == Ok(stones)
  {
    var ws := seq(|stones|, i requires 0 <= i < |stones| => NatToString(stones[i]));
    forall i | 0 <= i < |ws| ensures IsWord(ws[i]) {
      DigitsNoSpace(ws[i]);
    }
    WordsOfJoin(ws);
    ParseWordsOfNats(stones, ws);
  }
}

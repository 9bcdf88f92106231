/**
 * Day 1: two columns of location ids. Each column is sorted and the total
 * distance is the sum of the differences between the entries paired up in sorted order.
 */
module Day01 {
  import opened Wrappers
  import opened Text
  import opened Bits

  /** `str::parse::<usize>` on a 64-bit target. */
  function Usize(s: string): Option<int>
  {
    ParseInt(s, 0, U64_LIMIT - 1)
  }

  /** A line is read without panic: when it has a space, both sides parse as `usize`. */
  predicate LineParses(line: string)
  {
    match SplitOnce(line, ' ')
    case None => true
    case Some((x, y)) => Usize(x).Some? && Usize(Trim(y)).Some?
  }

  predicate AllLinesParse(ls: seq<string>)
  {
    forall i :: 0 <= i < |ls| ==> LineParses(ls[i])
  }

  /** The id pair a line contributes; the left part is not trimmed, the right part is. */
  function Entry(x: string, y: string): (nat, nat)
    requires Usize(x).Some? && Usize(Trim(y)).Some?
  {
    (Usize(x).value, Usize(Trim(y)).value)
  }

  /** The pairs of the lines that contain a space, in line order; lines without one are skipped. */
  function Pairs(ls: seq<string>): (ps: seq<(nat, nat)>)
    requires AllLinesParse(ls)
    ensures |ps| <= |ls|
    ensures forall i :: 0 <= i < |ps| ==> ps[i].0 < U64_LIMIT && ps[i].1 < U64_LIMIT
  {
    if ls == [] then []
    else
      var init := Pairs(ls[..|ls| - 1]);
      match SplitOnce(ls[|ls| - 1], ' ')
      case None => init
      case Some((x, y)) => init + [Entry(x, y)]
  }

  function Firsts(ps: seq<(nat, nat)>): (r: seq<nat>)
    ensures |r| == |ps| && forall i :: 0 <= i < |ps| ==> r[i] == ps[i].0
  {
    if ps == [] then [] else Firsts(ps[..|ps| - 1]) + [ps[|ps| - 1].0]
  }

  function Seconds(ps: seq<(nat, nat)>): (r: seq<nat>)
    ensures |r| == |ps| && forall i :: 0 <= i < |ps| ==> r[i] == ps[i].1
  {
    if ps == [] then [] else Seconds(ps[..|ps| - 1]) + [ps[|ps| - 1].1]
  }

  /** The pairs with their two components exchanged: the input with its columns swapped. */
  function Swapped(ps: seq<(nat, nat)>): (r: seq<(nat, nat)>)
    ensures |r| == |ps| && forall i :: 0 <= i < |ps| ==> r[i] == (ps[i].1, ps[i].0)
  {
    if ps == [] then [] else Swapped(ps[..|ps| - 1]) + [(ps[|ps| - 1].1, ps[|ps| - 1].0)]
  }

  // ---------------------------------------------------------------- sorting

  /** Ascending order, stated on neighbours. */
  predicate Sorted(s: seq<nat>)
  {
    forall i :: 0 < i < |s| ==> s[i - 1] <= s[i]
  }

  /** Ordered neighbours order every pair. */
  lemma {:induction false} SortedPairwise(s: seq<nat>, i: nat, j: nat)
    requires Sorted(s) && i <= j < |s|
    ensures s[i] <= s[j]
    decreases j - i
  {
    if i < j { SortedPairwise(s, i + 1, j); }
  }

  function Insert(x: nat, s: seq<nat>): (r: seq<nat>)
    ensures multiset(r) == multiset(s) + multiset{x}
    ensures |r| == |s| + 1 && (r[0] == x || (s != [] && r[0] == s[0]))
    ensures Sorted(s) ==> Sorted(r)
  {
    if s == [] then [x]
    else if x <= s[0] then [x] + s
    else
      assert s == [s[0]] + s[1..];
      var t := Insert(x, s[1..]);
      var r := [s[0]] + t;
      assert forall i :: 0 < i < |r| ==> r[i] == t[i - 1];
      r
  }

  /** `slice::sort`: ascending order, the same elements. */
  function Sort(s: seq<nat>): (r: seq<nat>)
    ensures Sorted(r) && multiset(r) == multiset(s)
  {
    if s == [] then []
    else
      assert s == [s[0]] + s[1..];
      Insert(s[0], Sort(s[1..]))
  }

  /** Sorting has only one possible result, whatever algorithm the library uses. */
  lemma {:induction false} SortedUnique(a: seq<nat>, b: seq<nat>)
    requires Sorted(a) && Sorted(b) && multiset(a) == multiset(b)
    ensures a == b
  {
    if a != [] {
      assert |b| == |a| by { assert |multiset(a)| == |multiset(b)|; }
      SortedHeads(a, b);
      SortedTail(a);
      SortedTail(b);
      SortedUnique(a[1..], b[1..]);
      assert a == [a[0]] + a[1..];
      assert b == [b[0]] + b[1..];
    }
  }

  /** Two sorted lists with the same elements start with the same one, their least. */
  lemma SortedHeads(a: seq<nat>, b: seq<nat>)
    requires Sorted(a) && Sorted(b) && multiset(a) == multiset(b) && a != [] && b != []
    ensures a[0] == b[0]
  {
    assert a[0] in multiset(b);
    assert b[0] in multiset(a);
    var i :| 0 <= i < |b| && b[i] == a[0];
    var j :| 0 <= j < |a| && a[j] == b[0];
    SortedPairwise(a, 0, j);
    SortedPairwise(b, 0, i);
  }

  /** The tail of a sorted list is sorted and holds the other elements. */
  lemma SortedTail(a: seq<nat>)
    requires Sorted(a) && a != []
    ensures Sorted(a[1..]) && multiset(a[1..]) == multiset(a) - multiset{a[0]}
  {
    assert a == [a[0]] + a[1..];
  }

  // ---------------------------------------------------------------- the lists

  /** The loop of `get_lists`: one entry per line containing a space pushed to each list. */
  method Collect(ls: seq<string>) returns (v0: seq<nat>, v1: seq<nat>)
    requires AllLinesParse(ls)
    ensures v0 == Firsts(Pairs(ls)) && v1 == Seconds(Pairs(ls))
  {
    v0, v1 := [], [];
    for i := 0 to |ls|
      invariant v0 == Firsts(Pairs(ls[..i])) && v1 == Seconds(Pairs(ls[..i]))
    {
      PairsSnoc(ls, i);
      match SplitOnce(ls[i], ' ')
      case None =>
      case Some((x, y)) =>
        var e := Entry(x, y);
        v0 := v0 + [e.0];
        v1 := v1 + [e.1];
    }
    assert ls[..|ls|] == ls;
  }

  /** One more line adds its pair, if it has one, at the end. */
  lemma PairsSnoc(ls: seq<string>, i: nat)
    requires AllLinesParse(ls) && i < |ls|
    ensures AllLinesParse(ls[..i]) && AllLinesParse(ls[..i + 1])
    ensures Pairs(ls[..i + 1]) == match SplitOnce(ls[i], ' ')
      case None => Pairs(ls[..i])
      case Some((x, y)) => Pairs(ls[..i]) + [Entry(x, y)]
  {
    assert ls[..i + 1][..i] == ls[..i];
  }

  /** `get_lists`: both columns, each sorted in place. */
  method GetLists(input: string) returns (v0: seq<nat>, v1: seq<nat>)
    requires AllLinesParse(Lines(input))
    ensures |v0| == |v1| == |Pairs(Lines(input))|
    ensures Sorted(v0) && multiset(v0) == multiset(Firsts(Pairs(Lines(input))))
    ensures Sorted(v1) && multiset(v1) == multiset(Seconds(Pairs(Lines(input))))
  {
    v0, v1 := Collect(Lines(input));
    v0 := Sort(v0);
    v1 := Sort(v1);
  }

  /** Sum of `|a[i] - b[i]|` over the common length. */
  function TotalDistance(a: seq<nat>, b: seq<nat>): nat
  {
    if a == [] || b == [] then 0
    else (if a[0] < b[0] then b[0] - a[0] else a[0] - b[0]) + TotalDistance(a[1..], b[1..])
  }

  lemma {:induction false} TotalDistanceSymmetric(a: seq<nat>, b: seq<nat>)
    ensures TotalDistance(a, b) == TotalDistance(b, a)
  {
    if a != [] && b != [] { TotalDistanceSymmetric(a[1..], b[1..]); }
  }

  /** Lists of one length are at distance zero exactly when they are equal. */
  lemma {:induction false} TotalDistanceZeroIffEqual(a: seq<nat>, b: seq<nat>)
    requires |a| == |b|
    ensures TotalDistance(a, b) == 0 <==> a == b
  {
    if a != [] {
      TotalDistanceZeroIffEqual(a[1..], b[1..]);
      assert a == [a[0]] + a[1..];
      assert b == [b[0]] + b[1..];
    }
  }

  /** The answer of part one: the total distance of the two sorted columns. */
  function Distance(ps: seq<(nat, nat)>): nat
  {
    TotalDistance(Sort(Firsts(ps)), Sort(Seconds(ps)))
  }

  /** Swapping the two columns of the input does not change the answer. */
  lemma ColumnsSwapped(ps: seq<(nat, nat)>)
    ensures Distance(Swapped(ps)) == Distance(ps)
  {
    var q := Swapped(ps);
    assert Firsts(q) == Seconds(ps);
    assert Seconds(q) == Firsts(ps);
    TotalDistanceSymmetric(Sort(Firsts(ps)), Sort(Seconds(ps)));
  }

  /**
   * `star1`. The `usize` sum must not overflow; as every partial sum is at most
   * the total, bounding the total is enough.
   */
  method Star1(input: string) returns (r: nat)
    requires AllLinesParse(Lines(input))
    requires Distance(Pairs(Lines(input))) < U64_LIMIT
    ensures r == Distance(Pairs(Lines(input)))
  {
    var v0, v1 := GetLists(input);
    var ps := Pairs(Lines(input));
    SortedUnique(v0, Sort(Firsts(ps)));
    SortedUnique(v1, Sort(Seconds(ps)));
    r := TotalDistance(v0, v1);
  }
}

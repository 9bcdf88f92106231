/** Small sequence helpers shared by the solutions. */
module Util {
  /**
   * `skip_nth`: the elements whose position is not `skip`, in their original order.
   * Walking the sequence, the position still to be skipped counts down with each element kept.
   */
  function SkipNth<T>(s: seq<T>, skip: nat): (r: seq<T>)
    ensures skip >= |s| ==> r == s
    ensures skip < |s| ==> |r| == |s| - 1
    ensures forall i :: 0 <= i < |r| && i < skip ==> r[i] == s[i]
    ensures forall i :: skip <= i < |r| ==> r[i] == s[i + 1]
    decreases |s|
  {
    if s == [] then []
    else if skip == 0 then s[1..]
    else
      var rest := SkipNth(s[1..], skip - 1);
      var r := [s[0]] + rest;
      assert forall i :: 0 < i < |r| ==> r[i] == rest[i - 1];
      r
  }

  /** The length of the longest prefix of `xs` without an item that `stop` holds for. */
  function UntilStop<A>(xs: seq<A>, stop: A -> bool): (k: nat)
    ensures k <= |xs|
  {
    if xs == [] || stop(xs[0]) then 0 else 1 + UntilStop(xs[1..], stop)
  }

  /** The prefix reaches past items that do not stop it. */
  lemma {:induction false} UntilPast<A>(xs: seq<A>, stop: A -> bool, i: nat)
    requires i < |xs| && forall m :: 0 <= m <= i ==> !stop(xs[m])
    ensures i < UntilStop(xs, stop)
  {
    if i > 0 { UntilPast(xs[1..], stop, i - 1); }
  }

  /** The prefix ends at the first item that stops it, or at the end. */
  lemma {:induction false} UntilAt<A>(xs: seq<A>, stop: A -> bool, i: nat)
    requires i <= |xs| && (i < |xs| ==> stop(xs[i])) && forall m :: 0 <= m < i ==> !stop(xs[m])
    ensures i == UntilStop(xs, stop)
  {
    if i > 0 { UntilAt(xs[1..], stop, i - 1); }
  }

  /** Dropping the last element of a sequence extended by one gives the sequence. */
  lemma InitOfSnoc<T>(xs: seq<T>, x: T)
    ensures (xs + [x])[..|xs|] == xs
  {
  }

  /** The parts around a middle element are recovered by slicing. */
  lemma SlicesAround<T>(xs: seq<T>, x: T, ys: seq<T>)
    ensures (xs + [x] + ys)[..|xs|] == xs && (xs + [x] + ys)[|xs| + 1..] == ys
  {
  }

  /** The members of a non-empty sequence are its last element and the members of the rest. */
  lemma PopMembers<T>(xs: seq<T>)
    requires xs != []
    ensures forall x :: x in xs <==> x in xs[..|xs| - 1] || x == xs[|xs| - 1]
  {
    assert xs == xs[..|xs| - 1] + [xs[|xs| - 1]];
  }
}

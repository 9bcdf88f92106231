/** Option and Result, the shapes Rust's `Option<T>` and `anyhow::Result<T>` take in this model. */
module Wrappers {
  datatype Option<T> = None | Some(value: T)

  /** An `anyhow` error is modelled by its message. */
  datatype Result<T> = Ok(value: T) | Err(error: string)

  /**
   * `collect::<Result<Vec<_>, _>>()` over `xs.map(f)`: every value when all succeed,
   * otherwise the error of the first item that fails.
   */
  function CollectAll<A, T>(xs: seq<A>, f: A -> Result<T>): (r: Result<seq<T>>)
    ensures r.Ok? <==> forall i :: 0 <= i < |xs| ==> f(xs[i]).Ok?
    ensures r.Ok? ==> |r.value| == |xs| && forall i :: 0 <= i < |xs| ==> r.value[i] == f(xs[i]).value
    ensures r.Err? ==> exists i :: (0 <= i < |xs| && f(xs[i]).Err? && r.error == f(xs[i]).error
      && forall j :: 0 <= j < i ==> f(xs[j]).Ok?)
  {
    if xs == [] then Ok([])
    else
      var init := xs[..|xs| - 1];
      assert forall i :: 0 <= i < |xs| - 1 ==> init[i] == xs[i];
      match CollectAll(init, f)
      case Err(e) => Err(e)
      case Ok(vs) =>
        match f(xs[|xs| - 1])
        case Err(e) => Err(e)
        case Ok(v) => Ok(vs + [v])
  }
  /** One more item extends a successful collection by its value, or fails with its error. */
  lemma CollectAllSnoc<A, T>(xs: seq<A>, f: A -> Result<T>, i: nat)
    requires i < |xs|
    ensures CollectAll(xs[..i + 1], f) == match CollectAll(xs[..i], f)
      case Err(e) => Err(e)
      case Ok(vs) => (match f(xs[i]) case Err(e) => Err(e) case Ok(v) => Ok(vs + [v]))
  {
    assert xs[..i + 1][..i] == xs[..i];
  }

  /** The error of a collection is the error of its first failing item. */
  lemma {:induction false} CollectAllFirstErr<A, T>(xs: seq<A>, f: A -> Result<T>, i: nat)
    requires i < |xs| && CollectAll(xs[..i], f).Ok? && f(xs[i]).Err?
    ensures CollectAll(xs, f) == Err(f(xs[i]).error)
    decreases |xs|
  {
    var init := xs[..|xs| - 1];
    if i == |xs| - 1 {
      assert init == xs[..i];
    } else {
      assert init[..i] == xs[..i] && init[i] == xs[i];
      CollectAllFirstErr(init, f, i);
    }
  }

  /** The same for a prefix of `xs` that takes in the failing item. */
  lemma CollectAllFirstErrAt<A, T>(xs: seq<A>, f: A -> Result<T>, i: nat, k: nat)
    requires i < k <= |xs| && CollectAll(xs[..i], f).Ok? && f(xs[i]).Err?
    ensures CollectAll(xs[..k], f) == Err(f(xs[i]).error)
  {
    var p := xs[..k];
    assert p[..i] == xs[..i] && p[i] == xs[i];
    CollectAllFirstErr(p, f, i);
  }

  /** Items that all succeed collect into their values. */
  lemma CollectAllOfValues<A, T>(xs: seq<A>, f: A -> Result<T>, vs: seq<T>)
    requires |vs| == |xs| && forall i :: 0 <= i < |xs| ==> f(xs[i]) == Ok(vs[i])
    ensures CollectAll(xs, f) == Ok(vs)
  {
    assert CollectAll(xs, f).value == vs;
  }

  /** The same for a slice of `xs`. */
  lemma CollectAllSlice<A, T>(xs: seq<A>, f: A -> Result<T>, lo: nat, hi: nat, vs: seq<T>)
    requires lo <= hi <= |xs| && |vs| == hi - lo
    requires forall i :: lo <= i < hi ==> f(xs[i]) == Ok(vs[i - lo])
    ensures CollectAll(xs[lo..hi], f) == Ok(vs)
  {
    var s := xs[lo..hi];
    assert forall i :: 0 <= i < |s| ==> s[i] == xs[lo + i];
    CollectAllOfValues(s, f, vs);
  }
}

/**
 * Breadth-first search over a grid, as `flood` in day 18 and the fill of `find_path` in
 * day 20 run it: a queue of `(cell, distance)` pairs, a distance grid whose `UNSEEN`
 * cells are not yet reached, and neighbours marked with one more than the popped cell
 * as they are queued. The predicates below are the loop invariant both searches keep,
 * each with the lemma that one round preserves it.
 */
module BreadthFirst {
  import opened Grids

  /** `u16::MAX`, the mark of a cell the search has not reached. */
  const UNSEEN: nat := 65535

  /** The distance stored for an inside cell. */
  function DistAt(g: Grid<char>, cs: seq<nat>, q: Point): nat
    requires |cs| == g.dx * g.dy && g.IsInside(q)
  {
    cs[g.ToIndex(q).value]
  }

  /** The number of cells that hold a distance. */
  function Reached(cs: seq<nat>): (r: nat)
    ensures r <= |cs|
  {
    if cs == [] then 0 else Reached(cs[..|cs| - 1]) + if cs[|cs| - 1] != UNSEEN then 1 else 0
  }

  /** Overwriting one cell changes the count by what left and what came. */
  lemma {:induction false} ReachedUpdate(cs: seq<nat>, i: nat, v: nat)
    requires i < |cs|
    ensures Reached(cs[i := v]) + (if cs[i] != UNSEEN then 1 else 0) ==
            Reached(cs) + (if v != UNSEEN then 1 else 0)
    decreases |cs|
  {
    var n := |cs| - 1;
    if i < n {
      ReachedUpdate(cs[..n], i, v);
      assert cs[i := v][..n] == cs[..n][i := v];
    } else {
      assert cs[i := v][..n] == cs[..n];
    }
  }

  /** A cell with a distance makes the count positive. */
  lemma {:induction false} ReachedAbove(cs: seq<nat>, i: nat)
    requires i < |cs| && cs[i] != UNSEEN
    ensures Reached(cs) > 0
    decreases |cs|
  {
    var n := |cs| - 1;
    if i < n {
      ReachedAbove(cs[..n], i);
    }
  }

  /** A cell without a distance leaves the count below the size. */
  lemma {:induction false} ReachedBelow(cs: seq<nat>, i: nat)
    requires i < |cs| && cs[i] == UNSEEN
    ensures Reached(cs) < |cs|
    decreases |cs|
  {
    var n := |cs| - 1;
    if i < n {
      ReachedBelow(cs[..n], i);
    }
  }

  /**
   * A finished search: every cell that a walk from `s` through `ok` reaches holds its
   * shortest distance, and every other cell holds `UNSEEN`.
   */
  ghost predicate Flooded(g: Grid<char>, s: Point, ok: set<Point>, cs: seq<nat>)
    requires |cs| == g.dx * g.dy
  {
    forall q {:trigger DistAt(g, cs, q)} :: g.IsInside(q) ==>
      (DistAt(g, cs, q) == UNSEEN <==> !Reachable(ok, s, q)) &&
      (DistAt(g, cs, q) != UNSEEN ==> Distance(ok, s, q, DistAt(g, cs, q)))
  }

  /** The free cells determine a finished search completely. */
  lemma FloodedUnique(g: Grid<char>, s: Point, ok: set<Point>, cs: seq<nat>, cs': seq<nat>)
    requires g.Valid() && |cs| == g.dx * g.dy && |cs'| == g.dx * g.dy
    requires Flooded(g, s, ok, cs) && Flooded(g, s, ok, cs')
    ensures cs == cs'
  {
    forall i | 0 <= i < |cs| ensures cs[i] == cs'[i] {
      var q := g.ToXY(i).value;
      assert DistAt(g, cs, q) == cs[i] && DistAt(g, cs', q) == cs'[i];
    }
  }

  // ---------------------------------------------------------------- the breadth-first search

  /** A cell whose distance the search knows: written, or the start, which is 0 from itself. */
  predicate Known(g: Grid<char>, s: Point, cs: seq<nat>, q: Point)
    requires |cs| == g.dx * g.dy
  {
    g.IsInside(q) && (q == s || DistAt(g, cs, q) != UNSEEN)
  }

  /** The distance the search knows for a known cell. */
  function D(g: Grid<char>, s: Point, cs: seq<nat>, q: Point): nat
    requires |cs| == g.dx * g.dy && g.IsInside(q)
  {
    if q == s then 0 else DistAt(g, cs, q)
  }

  /** The number of known cells. */
  function KnownCount(g: Grid<char>, s: Point, cs: seq<nat>): nat
    requires |cs| == g.dx * g.dy && g.IsInside(s)
  {
    Reached(cs) + if DistAt(g, cs, s) == UNSEEN then 1 else 0
  }

  /** The start holds 0 once written, and until then it is at the front of the queue. */
  predicate StartMark(g: Grid<char>, s: Point, cs: seq<nat>, queue: seq<(Point, nat)>)
    requires |cs| == g.dx * g.dy && g.IsInside(s)
  {
    (DistAt(g, cs, s) == UNSEEN || DistAt(g, cs, s) == 0) &&
    (DistAt(g, cs, s) == UNSEEN ==> |queue| > 0 && queue[0].0 == s)
  }

  /** Every known distance is the shortest one, and below the number of known cells. */
  ghost predicate Exact(g: Grid<char>, s: Point, ok: set<Point>, cs: seq<nat>)
    requires |cs| == g.dx * g.dy && g.IsInside(s)
  {
    forall q :: Known(g, s, cs, q) ==> Distance(ok, s, q, D(g, s, cs, q)) && D(g, s, cs, q) < KnownCount(g, s, cs)
  }

  /** The queue holds known cells with their distances, in layers: one distance, then maybe the next. */
  ghost predicate Layered(g: Grid<char>, s: Point, cs: seq<nat>, queue: seq<(Point, nat)>)
    requires |cs| == g.dx * g.dy
  {
    (forall e :: e in queue ==> Known(g, s, cs, e.0) && e.1 == D(g, s, cs, e.0)) &&
    forall i, j :: 0 <= i <= j < |queue| ==> queue[i].1 <= queue[j].1 <= queue[0].1 + 1
  }

  /** A known cell not yet popped waits in the queue; a popped one has its distance written. */
  ghost predicate Pending(g: Grid<char>, s: Point, cs: seq<nat>, queue: seq<(Point, nat)>, done: set<Point>)
    requires |cs| == g.dx * g.dy
  {
    (forall q :: Known(g, s, cs, q) && q !in done ==> (q, D(g, s, cs, q)) in queue) &&
    (forall q :: q in done ==> g.IsInside(q) && DistAt(g, cs, q) != UNSEEN)
  }

  /** Every cell within the front's distance is known. */
  ghost predicate Complete(g: Grid<char>, s: Point, ok: set<Point>, cs: seq<nat>, queue: seq<(Point, nat)>)
    requires |cs| == g.dx * g.dy
  {
    |queue| > 0 ==> forall q, m: nat :: m <= queue[0].1 && Within(ok, s, q, m) ==> Known(g, s, cs, q)
  }

  /** Every free neighbour of a popped cell is known. */
  ghost predicate Closure(g: Grid<char>, s: Point, ok: set<Point>, cs: seq<nat>, done: set<Point>)
    requires |cs| == g.dx * g.dy
  {
    forall a, b :: a in done && Adjacent(a, b) && b in ok ==> Known(g, s, cs, b)
  }

  /** What holds between two rounds of the search loop. */
  ghost predicate Bfs(g: Grid<char>, s: Point, ok: set<Point>, cs: seq<nat>, queue: seq<(Point, nat)>, done: set<Point>)
    requires |cs| == g.dx * g.dy && g.IsInside(s)
  {
    (forall q :: q in ok ==> g.IsInside(q)) &&
    StartMark(g, s, cs, queue) && Exact(g, s, ok, cs) && Layered(g, s, cs, queue) &&
    Pending(g, s, cs, queue, done) && Complete(g, s, ok, cs, queue) && Closure(g, s, ok, cs, done)
  }

  /**
   * What the inner loop of the search has done after `k` of the four steps from `p`: the
   * `added` cells, each a free neighbour of `p` without a distance before, now hold
   * `n + 1` and wait at the back of the queue; every free neighbour seen so far has a distance.
   */
  ghost predicate Expanded(g: Grid<char>, ok: set<Point>, p: Point, n: nat, cs: seq<nat>, cs': seq<nat>,
                           queue: seq<(Point, nat)>, queue': seq<(Point, nat)>, added: set<Point>, k: nat)
    requires |cs| == g.dx * g.dy && |cs'| == g.dx * g.dy && k <= 4
  {
    Marks(g, cs, cs', added, n + 1) && Queued(queue, queue', added, n + 1) &&
    (forall q :: q in added ==> Adjacent(p, q) && q in ok && g.IsInside(q) && DistAt(g, cs, q) == UNSEEN) &&
    (forall j :: 0 <= j < k ==> Seen(g, ok, cs', p.Add(STEPS[j]))) &&
    Reached(cs') == Reached(cs) + |added| && (added != {} ==> n + 1 != UNSEEN)
  }

  /** `cs'` is `cs` with `v` written at the cells of `marked`. */
  ghost predicate Marks(g: Grid<char>, cs: seq<nat>, cs': seq<nat>, marked: set<Point>, v: nat)
    requires |cs| == g.dx * g.dy && |cs'| == g.dx * g.dy
  {
    forall q :: g.IsInside(q) ==> DistAt(g, cs', q) == if q in marked then v else DistAt(g, cs, q)
  }

  /** `queue'` is `queue` followed by the cells of `added`, each with distance `v`. */
  ghost predicate Queued(queue: seq<(Point, nat)>, queue': seq<(Point, nat)>, added: set<Point>, v: nat)
  {
    |queue'| == |queue| + |added| && queue'[..|queue|] == queue &&
    forall e :: e in queue'[|queue|..] <==> e.0 in added && e.1 == v
  }

  /** A free cell `q` has a distance in `cs`. */
  ghost predicate Seen(g: Grid<char>, ok: set<Point>, cs: seq<nat>, q: Point)
    requires |cs| == g.dx * g.dy
  {
    q in ok && g.IsInside(q) ==> DistAt(g, cs, q) != UNSEEN
  }

  /** A free neighbour without a distance gets `n + 1` and is queued. */
  lemma ExpandMark(g: Grid<char>, ok: set<Point>, p: Point, n: nat, cs0: seq<nat>, cs: seq<nat>, cs': seq<nat>,
                   queue: seq<(Point, nat)>, queue': seq<(Point, nat)>, added: set<Point>, k: nat, q: Point)
    requires |cs0| == g.dx * g.dy && |cs| == g.dx * g.dy && k < 4 && q == p.Add(STEPS[k]) && Adjacent(p, q)
    requires Expanded(g, ok, p, n, cs0, cs, queue, queue', added, k)
    requires q in ok && g.IsInside(q) && DistAt(g, cs, q) == UNSEEN
    requires n + 1 != UNSEEN && cs' == cs[g.ToIndex(q).value := n + 1]
    ensures Expanded(g, ok, p, n, cs0, cs', queue, queue' + [(q, n + 1)], added + {q}, k + 1)
  {
    assert q !in added;
    ReachedUpdate(cs, g.ToIndex(q).value, n + 1);
    Remark(g, cs0, cs, cs', added, q, n + 1);
    QueueMore(queue, queue', added, q, n + 1);
    forall j | 0 <= j < k + 1 ensures Seen(g, ok, cs', p.Add(STEPS[j])) {
      if j < k {
        assert Seen(g, ok, cs, p.Add(STEPS[j]));
      }
    }
  }

  lemma QueueMore(queue: seq<(Point, nat)>, queue': seq<(Point, nat)>, added: set<Point>, q: Point, v: nat)
    requires Queued(queue, queue', added, v) && q !in added
    ensures Queued(queue, queue' + [(q, v)], added + {q}, v)
  {
    assert (queue' + [(q, v)])[|queue|..] == queue'[|queue|..] + [(q, v)];
    assert (queue' + [(q, v)])[..|queue|] == queue'[..|queue|];
  }

  /** A neighbour that is not free, or already has a distance, changes nothing. */
  lemma ExpandSkip(g: Grid<char>, ok: set<Point>, p: Point, n: nat, cs0: seq<nat>, cs: seq<nat>,
                   queue: seq<(Point, nat)>, queue': seq<(Point, nat)>, added: set<Point>, k: nat)
    requires |cs0| == g.dx * g.dy && |cs| == g.dx * g.dy && k < 4
    requires Expanded(g, ok, p, n, cs0, cs, queue, queue', added, k)
    requires Seen(g, ok, cs, p.Add(STEPS[k]))
    ensures Expanded(g, ok, p, n, cs0, cs, queue, queue', added, k + 1)
  {
  }

  /** Marking one more cell keeps the marked cells `added + {q}` and the rest as before. */
  lemma Remark(g: Grid<char>, cs0: seq<nat>, cs: seq<nat>, cs': seq<nat>, added: set<Point>, q: Point, v: nat)
    requires |cs0| == g.dx * g.dy && |cs| == g.dx * g.dy && g.IsInside(q)
    requires cs' == cs[g.ToIndex(q).value := v]
    requires Marks(g, cs0, cs, added, v)
    ensures Marks(g, cs0, cs', added + {q}, v)
  {
    forall x | g.IsInside(x) && x != q ensures DistAt(g, cs', x) == DistAt(g, cs, x) {
      if g.ToIndex(x) == g.ToIndex(q) {
        g.ToIndexInjective(x, q);
      }
    }
  }

  /** Two grids of the same shape number their cells alike. */
  lemma SameIndex(g: Grid<char>, v: Grid<nat>, p: Point)
    requires g.dx == v.dx && g.dy == v.dy
    ensures g.ToIndex(p) == v.ToIndex(p)
  {
  }

  // ---------------------------------------------------------------- one round of the search

  /** The known cells after a round: those before and the `added` ones, which are `n + 1` away. */
  ghost predicate Grown(g: Grid<char>, s: Point, cs: seq<nat>, cs': seq<nat>, added: set<Point>, n: nat)
    requires |cs| == g.dx * g.dy && |cs'| == g.dx * g.dy && g.IsInside(s)
  {
    (forall q :: g.IsInside(q) ==> (Known(g, s, cs', q) <==> Known(g, s, cs, q) || q in added)) &&
    (forall q :: Known(g, s, cs, q) ==> q !in added && D(g, s, cs', q) == D(g, s, cs, q)) &&
    (forall q :: q in added ==> g.IsInside(q) && D(g, s, cs', q) == n + 1 && !Known(g, s, cs, q)) &&
    KnownCount(g, s, cs') == KnownCount(g, s, cs) + |added|
  }

  /**
   * One round of the search loop, from `cs` and `queue` to `cs'` and `queue'`: the front
   * `(p, n)` is popped, and its free neighbours without a distance are the `added` cells.
   */
  ghost predicate Round(g: Grid<char>, s: Point, ok: set<Point>, cs: seq<nat>, queue: seq<(Point, nat)>,
                        cs': seq<nat>, queue': seq<(Point, nat)>, added: set<Point>)
    requires |cs| == g.dx * g.dy && |cs'| == g.dx * g.dy && g.IsInside(s)
  {
    |queue| > 0 && g.IsInside(queue[0].0) &&
    Grown(g, s, cs, cs', added, queue[0].1) && Queued(queue[1..], queue', added, queue[0].1 + 1) &&
    (forall q :: q in added ==> Adjacent(queue[0].0, q) && q in ok) &&
    (forall j :: 0 <= j < 4 ==> Seen(g, ok, cs', queue[0].0.Add(STEPS[j]))) &&
    DistAt(g, cs', s) == 0 && DistAt(g, cs', queue[0].0) != UNSEEN &&
    (forall q :: g.IsInside(q) && DistAt(g, cs, q) != UNSEEN ==> DistAt(g, cs', q) != UNSEEN)
  }

  /** Writing the popped cell's distance changes what is known in no way, and fixes the start at 0. */
  lemma PopView(g: Grid<char>, s: Point, ok: set<Point>, cs: seq<nat>, queue: seq<(Point, nat)>, done: set<Point>, cs1: seq<nat>)
    requires |cs| == g.dx * g.dy && g.IsInside(s) && Bfs(g, s, ok, cs, queue, done) && |queue| > 0
    requires g.IsInside(queue[0].0) && cs1 == cs[g.ToIndex(queue[0].0).value := queue[0].1]
    ensures forall q :: g.IsInside(q) ==> (Known(g, s, cs1, q) <==> Known(g, s, cs, q))
    ensures forall q :: Known(g, s, cs, q) ==> D(g, s, cs1, q) == D(g, s, cs, q)
    ensures forall q :: g.IsInside(q) && q != queue[0].0 ==> DistAt(g, cs1, q) == DistAt(g, cs, q)
    ensures DistAt(g, cs1, s) == 0 && DistAt(g, cs1, queue[0].0) == queue[0].1 != UNSEEN
    ensures KnownCount(g, s, cs1) == KnownCount(g, s, cs) == Reached(cs1) && Reached(cs) <= Reached(cs1)
    ensures queue[0].1 < Reached(cs1)
  {
    var (p, n) := queue[0];
    assert queue[0] in queue;
    var i := g.ToIndex(p).value;
    ReachedUpdate(cs, i, n);
    forall q | g.IsInside(q) && q != p ensures DistAt(g, cs1, q) == DistAt(g, cs, q) {
      if g.ToIndex(q) == g.ToIndex(p) {
        g.ToIndexInjective(q, p);
      }
    }
    if p != s {
      assert cs1 == cs;
    }
  }

  /** The write of the popped cell followed by the four neighbours make one round. */
  lemma RoundOf(g: Grid<char>, s: Point, ok: set<Point>, cs: seq<nat>, queue: seq<(Point, nat)>, done: set<Point>,
                cs1: seq<nat>, cs2: seq<nat>, queue2: seq<(Point, nat)>, added: set<Point>)
    requires |cs| == g.dx * g.dy && |cs2| == g.dx * g.dy && g.IsInside(s)
    requires Bfs(g, s, ok, cs, queue, done) && |queue| > 0
    requires g.IsInside(queue[0].0) && cs1 == cs[g.ToIndex(queue[0].0).value := queue[0].1]
    requires Expanded(g, ok, queue[0].0, queue[0].1, cs1, cs2, queue[1..], queue2, added, 4)
    ensures Round(g, s, ok, cs, queue, cs2, queue2, added)
    ensures Reached(cs) < Reached(cs2) || (Reached(cs) == Reached(cs2) && |queue2| < |queue|)
  {
    var (p, n) := queue[0];
    PopView(g, s, ok, cs, queue, done, cs1);
    GrownOf(g, s, cs, cs1, cs2, added, n);
    if added == {} {
      QueuedNothing(queue[1..], queue2, n + 1);
    }
  }

  /** Queueing no cells leaves the queue as it was. */
  lemma QueuedNothing(queue: seq<(Point, nat)>, queue': seq<(Point, nat)>, v: nat)
    requires Queued(queue, queue', {}, v)
    ensures queue' == queue
  {
  }

  /** The known cells after the write of the popped cell and the marks of its neighbours. */
  lemma GrownOf(g: Grid<char>, s: Point, cs: seq<nat>, cs1: seq<nat>, cs2: seq<nat>, added: set<Point>, n: nat)
    requires |cs| == g.dx * g.dy && |cs1| == g.dx * g.dy && |cs2| == g.dx * g.dy && g.IsInside(s)
    requires forall q :: g.IsInside(q) ==> (Known(g, s, cs1, q) <==> Known(g, s, cs, q))
    requires forall q :: Known(g, s, cs, q) ==> D(g, s, cs1, q) == D(g, s, cs, q)
    requires DistAt(g, cs1, s) == 0 && KnownCount(g, s, cs1) == KnownCount(g, s, cs) == Reached(cs1)
    requires Marks(g, cs1, cs2, added, n + 1) && (added != {} ==> n + 1 != UNSEEN)
    requires forall q :: q in added ==> g.IsInside(q) && DistAt(g, cs1, q) == UNSEEN
    requires Reached(cs2) == Reached(cs1) + |added|
    ensures Grown(g, s, cs, cs2, added, n)
  {
    assert s !in added;
    assert DistAt(g, cs2, s) == 0;
    forall q | q in added ensures D(g, s, cs2, q) == n + 1 && !Known(g, s, cs, q) {
      assert !Known(g, s, cs1, q);
    }
    forall q | Known(g, s, cs, q) ensures q !in added && D(g, s, cs2, q) == D(g, s, cs, q) {
      assert Known(g, s, cs1, q);
    }
    forall q | g.IsInside(q) ensures Known(g, s, cs2, q) <==> Known(g, s, cs, q) || q in added {
      assert Known(g, s, cs1, q) <==> Known(g, s, cs, q);
    }
  }

  /**
   * The search starts with only `s` known, at distance 0, and in the queue; `s` may
   * already hold its 0 or still be `UNSEEN`.
   */
  lemma BfsStart(g: Grid<char>, s: Point, ok: set<Point>, cs: seq<nat>)
    requires |cs| == g.dx * g.dy && g.IsInside(s) && forall q :: q in ok ==> g.IsInside(q)
    requires forall q :: g.IsInside(q) && q != s ==> DistAt(g, cs, q) == UNSEEN
    requires DistAt(g, cs, s) == UNSEEN || DistAt(g, cs, s) == 0
    ensures Bfs(g, s, ok, cs, [(s, 0)], {})
  {
    DistanceZero(ok, s);
    if DistAt(g, cs, s) == UNSEEN {
      ReachedBelow(cs, g.ToIndex(s).value);
    } else {
      ReachedAbove(cs, g.ToIndex(s).value);
    }
    forall q, m: nat | m <= 0 && Within(ok, s, q, m) ensures Known(g, s, cs, q) {
      var ps :| IsWalk(ok, ps) && ps[0] == s && ps[|ps| - 1] == q && |ps| <= m + 1;
    }
  }

  /** A round keeps every distance known exact. */
  lemma StepExact(g: Grid<char>, s: Point, ok: set<Point>, cs: seq<nat>, queue: seq<(Point, nat)>, done: set<Point>,
                  cs2: seq<nat>, queue2: seq<(Point, nat)>, added: set<Point>)
    requires |cs| == g.dx * g.dy && |cs2| == g.dx * g.dy && g.IsInside(s)
    requires Bfs(g, s, ok, cs, queue, done) && Round(g, s, ok, cs, queue, cs2, queue2, added)
    ensures Exact(g, s, ok, cs2)
  {
    GrownExact(g, s, ok, cs, queue, done, cs2, added);
  }

  /**
   * Marking free neighbours of the front cell with one more than its distance keeps every
   * known distance exact, whether or not all four neighbours have been looked at.
   */
  lemma GrownExact(g: Grid<char>, s: Point, ok: set<Point>, cs: seq<nat>, queue: seq<(Point, nat)>, done: set<Point>,
                   cs2: seq<nat>, added: set<Point>)
    requires |cs| == g.dx * g.dy && |cs2| == g.dx * g.dy && g.IsInside(s)
    requires Bfs(g, s, ok, cs, queue, done) && |queue| > 0 && Grown(g, s, cs, cs2, added, queue[0].1)
    requires forall q :: q in added ==> Adjacent(queue[0].0, q) && q in ok
    ensures Exact(g, s, ok, cs2)
  {
    var (p, n) := queue[0];
    assert queue[0] in queue;
    assert Within(ok, s, p, n);
    forall q | Known(g, s, cs2, q) ensures Distance(ok, s, q, D(g, s, cs2, q)) && D(g, s, cs2, q) < KnownCount(g, s, cs2) {
      if q in added {
        WithinStep(ok, s, p, q, n);
      }
    }
  }

  /** A round keeps the queue in layers of the known distances. */
  lemma StepLayered(g: Grid<char>, s: Point, ok: set<Point>, cs: seq<nat>, queue: seq<(Point, nat)>, done: set<Point>,
                    cs2: seq<nat>, queue2: seq<(Point, nat)>, added: set<Point>)
    requires |cs| == g.dx * g.dy && |cs2| == g.dx * g.dy && g.IsInside(s)
    requires Bfs(g, s, ok, cs, queue, done) && Round(g, s, ok, cs, queue, cs2, queue2, added)
    ensures Layered(g, s, cs2, queue2)
  {
    var n := queue[0].1;
    var rest := queue[1..];
    var m := |rest|;
    assert queue2[..m] == rest;
    forall i | 0 <= i < |queue2| ensures n <= queue2[i].1 <= n + 1 && (i >= m ==> queue2[i].1 == n + 1)
      && (i < m ==> queue2[i] == queue[i + 1])
    {
      if i < m {
        assert queue2[i] == queue2[..m][i];
      } else {
        assert queue2[i] in queue2[m..];
      }
    }
    forall e | e in queue2 ensures Known(g, s, cs2, e.0) && e.1 == D(g, s, cs2, e.0) {
      var i :| 0 <= i < |queue2| && queue2[i] == e;
      if i < m {
        assert queue[i + 1] in queue;
      } else {
        assert queue2[i] in queue2[m..];
      }
    }
  }

  /** A round keeps every cell pending or popped. */
  lemma StepPending(g: Grid<char>, s: Point, cs: seq<nat>, queue: seq<(Point, nat)>, done: set<Point>,
                    cs2: seq<nat>, queue2: seq<(Point, nat)>, added: set<Point>)
    requires |cs| == g.dx * g.dy && |cs2| == g.dx * g.dy && g.IsInside(s)
    requires |queue| > 0 && g.IsInside(queue[0].0)
    requires Pending(g, s, cs, queue, done) && Grown(g, s, cs, cs2, added, queue[0].1)
    requires Queued(queue[1..], queue2, added, queue[0].1 + 1)
    requires DistAt(g, cs2, queue[0].0) != UNSEEN
    requires forall q :: g.IsInside(q) && DistAt(g, cs, q) != UNSEEN ==> DistAt(g, cs2, q) != UNSEEN
    ensures Pending(g, s, cs2, queue2, done + {queue[0].0})
  {
    var (p, n) := queue[0];
    var m := |queue[1..]|;
    assert queue2[..m] == queue[1..];
    forall q | Known(g, s, cs2, q) && q !in done + {p} ensures (q, D(g, s, cs2, q)) in queue2 {
      if q in added {
        assert (q, n + 1) in queue2[m..];
      } else {
        assert (q, D(g, s, cs, q)) in queue;
        assert (q, D(g, s, cs, q)) in queue[1..] by {
          assert queue == [queue[0]] + queue[1..];
        }
        assert (q, D(g, s, cs, q)) in queue2[..m];
      }
    }
  }

  /** A round keeps the free neighbours of popped cells known. */
  lemma StepClosure(g: Grid<char>, s: Point, ok: set<Point>, cs: seq<nat>, queue: seq<(Point, nat)>, done: set<Point>,
                    cs2: seq<nat>, queue2: seq<(Point, nat)>, added: set<Point>)
    requires |cs| == g.dx * g.dy && |cs2| == g.dx * g.dy && g.IsInside(s)
    requires Bfs(g, s, ok, cs, queue, done) && Round(g, s, ok, cs, queue, cs2, queue2, added)
    ensures Closure(g, s, ok, cs2, done + {queue[0].0})
  {
    var p := queue[0].0;
    forall a, b | a in done + {p} && Adjacent(a, b) && b in ok ensures Known(g, s, cs2, b) {
      if a == p {
        var j := AdjacentStep(p, b);
        assert Seen(g, ok, cs2, p.Add(STEPS[j]));
      }
    }
  }

  /** A round keeps every cell within the front's distance known. */
  lemma StepComplete(g: Grid<char>, s: Point, ok: set<Point>, cs: seq<nat>, queue: seq<(Point, nat)>, done: set<Point>,
                     cs2: seq<nat>, queue2: seq<(Point, nat)>, added: set<Point>)
    requires |cs| == g.dx * g.dy && |cs2| == g.dx * g.dy && g.IsInside(s)
    requires Bfs(g, s, ok, cs, queue, done) && Round(g, s, ok, cs, queue, cs2, queue2, added)
    requires Layered(g, s, cs2, queue2) && Pending(g, s, cs2, queue2, done + {queue[0].0})
    requires Closure(g, s, ok, cs2, done + {queue[0].0})
    ensures Complete(g, s, ok, cs2, queue2)
  {
    var (p, n) := queue[0];
    if |queue2| > 0 {
      var f := queue2[0].1;
      assert queue2[0] in queue2;
      assert n <= f <= n + 1 by {
        var m := |queue[1..]|;
        if m > 0 {
          assert queue2[..m] == queue[1..];
          assert queue2[0] == queue[1];
        } else {
          assert queue2[0] in queue2[m..];
        }
      }
      forall q, m: nat | m <= f && Within(ok, s, q, m) ensures Known(g, s, cs2, q) {
        if m <= n {
          assert Known(g, s, cs, q);
        } else if Within(ok, s, q, n) {
          assert Known(g, s, cs, q);
        } else {
          var w := WithinPred(ok, s, q, n);
          assert Known(g, s, cs, w);
          assert D(g, s, cs, w) <= n;
        }
      }
    }
  }

  /** The invariant of the search loop survives a round. */
  lemma BfsRound(g: Grid<char>, s: Point, ok: set<Point>, cs: seq<nat>, queue: seq<(Point, nat)>, done: set<Point>,
                 cs2: seq<nat>, queue2: seq<(Point, nat)>, added: set<Point>)
    requires |cs| == g.dx * g.dy && |cs2| == g.dx * g.dy && g.IsInside(s)
    requires Bfs(g, s, ok, cs, queue, done) && Round(g, s, ok, cs, queue, cs2, queue2, added)
    ensures Bfs(g, s, ok, cs2, queue2, done + {queue[0].0})
  {
    StepExact(g, s, ok, cs, queue, done, cs2, queue2, added);
    StepLayered(g, s, ok, cs, queue, done, cs2, queue2, added);
    StepPending(g, s, cs, queue, done, cs2, queue2, added);
    StepClosure(g, s, ok, cs, queue, done, cs2, queue2, added);
    StepComplete(g, s, ok, cs, queue, done, cs2, queue2, added);
  }

  /** With the queue empty, every cell `s` reaches is known, and the written marks finish the search. */
  lemma BfsEnd(g: Grid<char>, s: Point, ok: set<Point>, cs: seq<nat>, done: set<Point>)
    requires |cs| == g.dx * g.dy && g.IsInside(s) && Bfs(g, s, ok, cs, [], done)
    ensures Flooded(g, s, ok, cs)
  {
    assert s in done by {
      assert Known(g, s, cs, s);
    }
    forall a, b | a in done && Adjacent(a, b) && b in ok ensures b in done {
      assert Known(g, s, cs, b);
    }
    forall q | g.IsInside(q) ensures (DistAt(g, cs, q) == UNSEEN <==> !Reachable(ok, s, q)) &&
      (DistAt(g, cs, q) != UNSEEN ==> Distance(ok, s, q, DistAt(g, cs, q)))
    {
      if DistAt(g, cs, q) != UNSEEN {
        assert Known(g, s, cs, q);
        WithinReachable(ok, s, q, D(g, s, cs, q));
      } else if Reachable(ok, s, q) {
        var ps :| IsWalk(ok, ps) && ps[0] == s && ps[|ps| - 1] == q;
        ClosedHoldsReachable(ok, done, s, ps);
        assert false;
      }
    }
  }
}

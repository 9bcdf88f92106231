/**
 * Day 20: a race track. `find_path` searches breadth first from the start until it looks
 * at the end, then backtracks from the end along smaller distances; `find_cheats` finds
 * the walls one step off the path with the path again behind them, and
 * `find_cheats_new` counts the pairs of path cells that a short cut of bounded length joins.
 */
module Day20 {
  import opened Wrappers
  import opened Text
  import opened Grids
  import opened BreadthFirst
  import Bits

  const WALL: char := '#'
  const START: char := 'S'
  const END: char := 'E'

  /** `u16::MAX`: a cell with no distance, or in `find_cheats` a cell off the path. */
  const NEW: nat := UNSEEN

  datatype Track = Track(grid: Grid<char>, start: Point, end: Point)

  // ---------------------------------------------------------------- parsing

  /** `p` is the first cell of `g`, in row-major order, that holds `c`. */
  ghost predicate FirstAt(g: Grid<char>, c: char, p: Point)
    reads g
    requires g.Valid()
  {
    g.Get(p) == Some(c) && forall k :: 0 <= k < g.ToIndex(p).value ==> g.cells[k] != c
  }

  /**
   * `Track::parse`: the grid, with the first `'S'` as the start and the first `'E'` as
   * the end; an error when the grid is jagged or either letter is missing.
   */
  method ParseTrack(input: string) returns (r: Result<Track>)
    requires exists i :: 0 <= i < |Lines(input)| && Lines(input)[i] != []
    ensures r.Ok? ==> fresh(r.value.grid) && r.value.grid.Valid() && GridOfLines(r.value.grid, Lines(input))
    ensures r.Ok? ==> FirstAt(r.value.grid, START, r.value.start) && FirstAt(r.value.grid, END, r.value.end)
    ensures r.Err? <==> !Rectangular(Lines(input)) ||
                        START !in Flatten(Lines(input)[FirstNonEmpty(Lines(input))..]) ||
                        END !in Flatten(Lines(input)[FirstNonEmpty(Lines(input))..])
  {
    var parsed := Parse(input);
    if parsed.Err? {
      return Err(parsed.error);
    }
    var g := parsed.value;
    var start := g.Find(START);
    if start.None? {
      return Err("no start");
    }
    var end := g.Find(END);
    if end.None? {
      return Err("no end");
    }
    r := Ok(Track(g, start.value, end.value));
  }

  // ---------------------------------------------------------------- the fill of find_path

  /** The cells a racer may drive on: every inside cell that is not a wall. */
  ghost function Free(g: Grid<char>): set<Point>
    reads g
    requires g.Valid()
  {
    set q | q in g.AllPoints() && g.IsInside(q) && g.At(g.cells, q) != WALL
  }

  lemma FreeHas(g: Grid<char>, q: Point)
    requires g.Valid()
    ensures q in Free(g) <==> g.IsInside(q) && g.At(g.cells, q) != WALL
  {
    g.AllPointsHas(q);
  }

  /** A cell with a distance other than the start has a neighbour one closer. */
  ghost predicate Parented(g: Grid<char>, s: Point, cs: seq<nat>)
    requires |cs| == g.dx * g.dy
  {
    forall q {:trigger DistAt(g, cs, q)} :: g.IsInside(q) && q != s && DistAt(g, cs, q) != NEW ==> HasParent(g, cs, q)
  }

  ghost predicate HasParent(g: Grid<char>, cs: seq<nat>, q: Point)
    requires |cs| == g.dx * g.dy && g.IsInside(q)
  {
    exists w :: g.IsInside(w) && Adjacent(w, q) && DistAt(g, cs, w) != NEW && DistAt(g, cs, w) + 1 == DistAt(g, cs, q)
  }

  /**
   * What the fill leaves in `vis`: the start holds 0, every other distance written is the
   * shortest one through `ok` and comes from a neighbour one closer.
   */
  ghost predicate Filled(g: Grid<char>, s: Point, ok: set<Point>, cs: seq<nat>)
    requires |cs| == g.dx * g.dy && g.IsInside(s)
  {
    DistAt(g, cs, s) == 0 && Parented(g, s, cs) &&
    forall q {:trigger DistAt(g, cs, q)} :: g.IsInside(q) && DistAt(g, cs, q) != NEW ==>
      DistAt(g, cs, q) < NEW && Distance(ok, s, q, DistAt(g, cs, q))
  }

  /** Marking neighbours of `p`, which holds `n`, with `n + 1` keeps every mark parented. */
  lemma ParentedMarks(g: Grid<char>, s: Point, cs: seq<nat>, cs': seq<nat>, added: set<Point>, p: Point, n: nat)
    requires |cs| == g.dx * g.dy && |cs'| == g.dx * g.dy && g.IsInside(p)
    requires Parented(g, s, cs) && Marks(g, cs, cs', added, n + 1)
    requires DistAt(g, cs, p) == n != NEW
    requires forall q :: q in added ==> Adjacent(p, q) && g.IsInside(q) && DistAt(g, cs, q) == NEW
    ensures Parented(g, s, cs')
  {
    assert p !in added;
    forall q | g.IsInside(q) && q != s && DistAt(g, cs', q) != NEW ensures HasParent(g, cs', q) {
      if q in added {
        assert DistAt(g, cs', p) == n;
      } else {
        assert HasParent(g, cs, q);
        var w :| g.IsInside(w) && Adjacent(w, q) && DistAt(g, cs, w) != NEW && DistAt(g, cs, w) + 1 == DistAt(g, cs, q);
        assert w !in added;
      }
    }
  }

  /** The popped cell already holds its distance, so the fill needs no write before the neighbours. */
  lemma PopSame(g: Grid<char>, s: Point, ok: set<Point>, cs: seq<nat>, queue: seq<(Point, nat)>, done: set<Point>)
    requires |cs| == g.dx * g.dy && g.IsInside(s) && Bfs(g, s, ok, cs, queue, done) && |queue| > 0
    requires DistAt(g, cs, s) == 0
    ensures g.IsInside(queue[0].0) && cs[g.ToIndex(queue[0].0).value := queue[0].1] == cs
  {
    assert queue[0] in queue;
  }

  /**
   * The fill stopped after the neighbours `STEPS[..k]` of the front cell, the last of them
   * the end: the distances are as the fill leaves them, and the end, when free, has one.
   */
  lemma FillStops(g: Grid<char>, s: Point, ok: set<Point>, cs: seq<nat>, queue: seq<(Point, nat)>, done: set<Point>,
                  cs2: seq<nat>, queue2: seq<(Point, nat)>, added: set<Point>, k: nat)
    requires |cs| == g.dx * g.dy && |cs2| == g.dx * g.dy && g.IsInside(s) && |cs| <= NEW
    requires Bfs(g, s, ok, cs, queue, done) && DistAt(g, cs, s) == 0 && Parented(g, s, cs) && |queue| > 0
    requires 0 < k <= 4 && Expanded(g, ok, queue[0].0, queue[0].1, cs, cs2, queue[1..], queue2, added, k)
    ensures Filled(g, s, ok, cs2)
    ensures var e := queue[0].0.Add(STEPS[k - 1]);
      e in ok ==> g.IsInside(e) && DistAt(g, cs2, e) != NEW && Reachable(ok, s, e)
  {
    var (p, n) := queue[0];
    PopSame(g, s, ok, cs, queue, done);
    PopView(g, s, ok, cs, queue, done, cs);
    GrownOf(g, s, cs, cs, cs2, added, n);
    GrownExact(g, s, ok, cs, queue, done, cs2, added);
    ParentedMarks(g, s, cs, cs2, added, p, n);
    FilledOf(g, s, ok, cs2);
    var e := p.Add(STEPS[k - 1]);
    if e in ok {
      assert Seen(g, ok, cs2, e);
      assert Known(g, s, cs2, e);
      WithinReachable(ok, s, e, D(g, s, cs2, e));
    }
  }

  /** Exact distances with the start at 0, parented, are what the fill leaves. */
  lemma FilledOf(g: Grid<char>, s: Point, ok: set<Point>, cs: seq<nat>)
    requires |cs| == g.dx * g.dy && g.IsInside(s) && |cs| <= NEW
    requires Exact(g, s, ok, cs) && DistAt(g, cs, s) == 0 && Parented(g, s, cs)
    ensures Filled(g, s, ok, cs)
  {
    forall q | g.IsInside(q) && DistAt(g, cs, q) != NEW ensures DistAt(g, cs, q) < NEW && Distance(ok, s, q, DistAt(g, cs, q)) {
      assert Known(g, s, cs, q);
    }
  }

  /**
   * The inner loop of the fill: each neighbour of `p` inside the grid that has no distance
   * and is not a wall gets `pd + 1` and is queued; after the neighbour that is the end the
   * loop stops, with `atEnd` set, having looked at `k` neighbours.
   */
  method Visit(t: Track, vis: Grid<nat>, p: Point, pd: nat, queue: seq<(Point, nat)>)
    returns (queue': seq<(Point, nat)>, atEnd: bool, ghost added: set<Point>, ghost k: nat)
    requires t.grid.Valid() && vis.Valid() && t.grid.dx == vis.dx && t.grid.dy == vis.dy
    requires t.grid as object != vis as object
    requires |vis.cells| <= NEW && pd < Reached(vis.cells)
    modifies vis
    ensures vis.Valid() && k <= 4 && Expanded(t.grid, Free(t.grid), p, pd, old(vis.cells), vis.cells, queue, queue', added, k)
    ensures atEnd ==> 0 < k && p.Add(STEPS[k - 1]) == t.end
    ensures !atEnd ==> k == 4
  {
    ghost var ok := Free(t.grid);
    ghost var cs0 := vis.cells;
    queue', added, atEnd := queue, {}, false;
    var i := 0;
    while i < 4 && !atEnd
      invariant 0 <= i <= 4 && vis.Valid()
      invariant Expanded(t.grid, ok, p, pd, cs0, vis.cells, queue, queue', added, i)
      invariant atEnd ==> 0 < i && p.Add(STEPS[i - 1]) == t.end
    {
      var q := p.Add(STEPS[i]);
      FreeHas(t.grid, q);
      SameIndex(t.grid, vis, q);
      ghost var cs := vis.cells;
      var marked := false;
      match vis.Get(q) {
        case Some(qd) =>
          if qd == NEW && t.grid.Get(q) != Some(WALL) {
            ReachedBelow(cs, vis.ToIndex(q).value);
            var _ := vis.Set(q, pd + 1);
            StepIsAdjacent(p, i);
            ExpandMark(t.grid, ok, p, pd, cs0, cs, vis.cells, queue, queue', added, i, q);
            queue' := queue' + [(q, pd + 1)];
            added := added + {q};
            marked := true;
          }
        case None =>
      }
      if !marked {
        ExpandSkip(t.grid, ok, p, pd, cs0, vis.cells, queue, queue', added, i);
      }
      i := i + 1;
      if q == t.end {
        atEnd := true;
      }
    }
    k := i;
  }

  /**
   * The fill of `find_path`: from `vis` holding 0 at the start and `NEW` everywhere else,
   * a breadth-first search through the free cells that stops once it has looked at the end.
   * Every distance it writes is exact, and the free end has a distance exactly when it is
   * reachable.
   */
  method Fill(t: Track, vis: Grid<nat>)
    requires t.grid.Valid() && vis.Valid() && t.grid.dx == vis.dx && t.grid.dy == vis.dy
    requires t.grid as object != vis as object
    requires t.grid.IsInside(t.start) && t.grid.dx * t.grid.dy <= NEW
    requires forall q :: t.grid.IsInside(q) ==> DistAt(t.grid, vis.cells, q) == if q == t.start then 0 else NEW
    modifies vis
    ensures vis.Valid() && Filled(t.grid, t.start, Free(t.grid), vis.cells)
    ensures t.end in Free(t.grid) ==>
      t.grid.IsInside(t.end) && (DistAt(t.grid, vis.cells, t.end) == NEW <==> !Reachable(Free(t.grid), t.start, t.end))
  {
    ghost var ok := Free(t.grid);
    ghost var s := t.start;
    forall q | q in ok ensures t.grid.IsInside(q) {
      FreeHas(t.grid, q);
    }
    var queue := [(t.start, 0)];
    ghost var done: set<Point> := {};
    BfsStart(t.grid, s, ok, vis.cells);
    var atEnd := false;
    while queue != [] && !atEnd
      invariant vis.Valid()
      invariant !atEnd ==> Bfs(t.grid, s, ok, vis.cells, queue, done) && DistAt(t.grid, vis.cells, s) == 0 &&
                           Parented(t.grid, s, vis.cells)
      invariant atEnd ==> Filled(t.grid, s, ok, vis.cells) &&
                          (t.end in ok ==> t.grid.IsInside(t.end) && DistAt(t.grid, vis.cells, t.end) != NEW && Reachable(ok, s, t.end))
      decreases if atEnd then 0 else 1, |vis.cells| - Reached(vis.cells), |queue|
    {
      ghost var cs := vis.cells;
      ghost var queue0 := queue;
      var (p, pd) := queue[0];
      PopSame(t.grid, s, ok, cs, queue0, done);
      PopView(t.grid, s, ok, cs, queue0, done, cs);
      queue := queue[1..];
      ghost var added, k;
      queue, atEnd, added, k := Visit(t, vis, p, pd, queue);
      if atEnd {
        FillStops(t.grid, s, ok, cs, queue0, done, vis.cells, queue, added, k);
      } else {
        RoundOf(t.grid, s, ok, cs, queue0, done, cs, vis.cells, queue, added);
        BfsRound(t.grid, s, ok, cs, queue0, done, vis.cells, queue, added);
        ParentedMarks(t.grid, s, cs, vis.cells, added, p, pd);
        done := done + {p};
      }
    }
    if !atEnd {
      BfsEnd(t.grid, s, ok, vis.cells, done);
      FilledOf(t.grid, s, ok, vis.cells);
      FreeHas(t.grid, t.end);
    }
  }

  // ---------------------------------------------------------------- the backtracking of find_path

  /** The neighbours `p + STEPS[j]`, `j < k`, inside the grid with a distance below `pd`, in that order. */
  function Lower(g: Grid<char>, cs: seq<nat>, p: Point, pd: nat, k: nat): (r: seq<Point>)
    requires |cs| == g.dx * g.dy && k <= 4
    ensures forall q :: q in r ==> g.IsInside(q) && Adjacent(p, q) && DistAt(g, cs, q) < pd
  {
    if k == 0 then []
    else
      var q := p.Add(STEPS[k - 1]);
      StepIsAdjacent(p, k - 1);
      Lower(g, cs, p, pd, k - 1) + if g.IsInside(q) && DistAt(g, cs, q) < pd then [q] else []
  }

  /** A neighbour with a smaller distance is among the lower ones. */
  lemma {:induction false} LowerHas(g: Grid<char>, cs: seq<nat>, p: Point, pd: nat, k: nat, j: nat)
    requires |cs| == g.dx * g.dy && j < k <= 4
    requires g.IsInside(p.Add(STEPS[j])) && DistAt(g, cs, p.Add(STEPS[j])) < pd
    ensures p.Add(STEPS[j]) in Lower(g, cs, p, pd, k)
  {
    if j < k - 1 {
      LowerHas(g, cs, p, pd, k - 1, j);
    }
  }

  /**
   * The cells the backtracking pushes after `p`: the lower neighbours of `p`, then those
   * of the last of them, and so on until a cell holding 0 or `NEW`.
   */
  function Trace(g: Grid<char>, cs: seq<nat>, p: Point): (r: seq<Point>)
    requires |cs| == g.dx * g.dy && g.IsInside(p)
    ensures forall q :: q in r ==> g.IsInside(q)
    decreases DistAt(g, cs, p)
  {
    var pd := DistAt(g, cs, p);
    if pd == 0 || pd == NEW then []
    else
      var l := Lower(g, cs, p, pd, 4);
      if l == [] then []
      else
        assert l[|l| - 1] in l;
        l + Trace(g, cs, l[|l| - 1])
  }

  /** Every cell with a distance other than 0 and `NEW` has a neighbour with a smaller one. */
  ghost predicate Descending(g: Grid<char>, cs: seq<nat>)
    requires |cs| == g.dx * g.dy
  {
    forall q {:trigger HasLower(g, cs, q)} :: g.IsInside(q) && 0 < DistAt(g, cs, q) != NEW ==> HasLower(g, cs, q)
  }

  /** Cell `q` has a neighbour with a smaller distance. */
  ghost predicate HasLower(g: Grid<char>, cs: seq<nat>, q: Point)
    requires |cs| == g.dx * g.dy && g.IsInside(q)
  {
    exists w :: g.IsInside(w) && Adjacent(q, w) && DistAt(g, cs, w) < DistAt(g, cs, q)
  }

  /** The cells the backtracking reaches have lower neighbours, so it comes to an end. */
  lemma FilledDescending(g: Grid<char>, s: Point, ok: set<Point>, cs: seq<nat>)
    requires |cs| == g.dx * g.dy && g.IsInside(s) && Filled(g, s, ok, cs)
    ensures Descending(g, cs)
  {
    forall q | g.IsInside(q) && 0 < DistAt(g, cs, q) != NEW
      ensures HasLower(g, cs, q)
    {
      assert HasParent(g, cs, q);
      var w :| g.IsInside(w) && Adjacent(w, q) && DistAt(g, cs, w) != NEW && DistAt(g, cs, w) + 1 == DistAt(g, cs, q);
      AdjacentSym(w, q);
    }
  }

  /** A cell with a descending distance has a lower neighbour. */
  lemma LowerNotEmpty(g: Grid<char>, cs: seq<nat>, p: Point)
    requires |cs| == g.dx * g.dy && g.IsInside(p) && Descending(g, cs) && 0 < DistAt(g, cs, p) != NEW
    ensures Lower(g, cs, p, DistAt(g, cs, p), 4) != []
  {
    assert HasLower(g, cs, p);
    var w :| g.IsInside(w) && Adjacent(p, w) && DistAt(g, cs, w) < DistAt(g, cs, p);
    var j := AdjacentStep(p, w);
    LowerHas(g, cs, p, DistAt(g, cs, p), 4, j);
  }

  /** Backtracking one cell: its lower neighbours, then the trace from the last of them, which is closer. */
  lemma TraceStep(g: Grid<char>, cs: seq<nat>, p: Point) returns (l: seq<Point>)
    requires |cs| == g.dx * g.dy && g.IsInside(p) && Descending(g, cs) && 0 < DistAt(g, cs, p) != NEW
    ensures l == Lower(g, cs, p, DistAt(g, cs, p), 4) && l != []
    ensures g.IsInside(l[|l| - 1]) && DistAt(g, cs, l[|l| - 1]) < DistAt(g, cs, p)
    ensures Trace(g, cs, p) == l + Trace(g, cs, l[|l| - 1])
  {
    LowerNotEmpty(g, cs, p);
    l := Lower(g, cs, p, DistAt(g, cs, p), 4);
    assert l[|l| - 1] in l;
  }

  /** Pushing `l` onto the trail keeps the trail followed by what is left the same. */
  lemma TrailStep(trail: seq<Point>, l: seq<Point>, rest: seq<Point>)
    requires l != []
    ensures (trail + l)[|trail + l| - 1] == l[|l| - 1] && (trail + l) + rest == trail + (l + rest)
  {
  }

  /** `path.reverse()`. */
  function Reverse<T>(s: seq<T>): (r: seq<T>)
    ensures |r| == |s| && forall i :: 0 <= i < |s| ==> r[i] == s[|s| - 1 - i]
  {
    if s == [] then [] else Reverse(s[1..]) + [s[0]]
  }

  /** The inner loop of the backtracking: every neighbour of `p` with a distance below `pd`, in step order. */
  method PushLower(t: Track, vis: Grid<nat>, p: Point, pd: nat, trail: seq<Point>) returns (trail': seq<Point>)
    requires t.grid.Valid() && vis.Valid() && t.grid.dx == vis.dx && t.grid.dy == vis.dy
    ensures trail' == trail + Lower(t.grid, vis.cells, p, pd, 4)
  {
    trail' := trail;
    for k := 0 to 4
      invariant trail' == trail + Lower(t.grid, vis.cells, p, pd, k)
    {
      var q := p.Add(STEPS[k]);
      SameIndex(t.grid, vis, q);
      match vis.Get(q) {
        case Some(qd) =>
          if qd < pd {
            trail' := trail' + [q];
          }
        case None =>
      }
    }
  }

  /**
   * The backtracking of `find_path`: from the end, push the lower neighbours of the last
   * cell pushed until it holds 0 or `NEW`, then reverse.
   */
  method Backtrack(t: Track, vis: Grid<nat>) returns (path: seq<Point>)
    requires t.grid.Valid() && vis.Valid() && t.grid.dx == vis.dx && t.grid.dy == vis.dy
    requires t.grid.IsInside(t.end) && Descending(t.grid, vis.cells)
    ensures path == Reverse([t.end] + Trace(t.grid, vis.cells, t.end))
  {
    ghost var g := t.grid;
    ghost var cs := vis.cells;
    var trail := [t.end];
    while true
      invariant |trail| > 0 && g.IsInside(trail[|trail| - 1])
      invariant trail + Trace(g, cs, trail[|trail| - 1]) == [t.end] + Trace(g, cs, t.end)
      decreases DistAt(g, cs, trail[|trail| - 1])
    {
      var p := trail[|trail| - 1];
      SameIndex(g, vis, p);
      var pd := vis.Get(p).value;
      assert pd == DistAt(g, cs, p);
      if pd == 0 || pd == NEW {
        break;
      }
      ghost var l := TraceStep(g, cs, p);
      ghost var trail0, last := trail, l[|l| - 1];
      trail := PushLower(t, vis, p, pd, trail);
      assert trail == trail0 + l;
      TrailStep(trail0, l, Trace(g, cs, last));
      assert trail[|trail| - 1] == last && trail + Trace(g, cs, last) == trail0 + Trace(g, cs, p);
    }
    path := Reverse(trail);
  }

  // ---------------------------------------------------------------- what find_path returns

  /** From `a` to `b` the distance stays, or falls by one to a neighbour. */
  ghost predicate Drop(g: Grid<char>, cs: seq<nat>, a: Point, b: Point)
    requires |cs| == g.dx * g.dy
  {
    g.IsInside(a) && g.IsInside(b) &&
    (DistAt(g, cs, b) == DistAt(g, cs, a) || (DistAt(g, cs, b) + 1 == DistAt(g, cs, a) && Adjacent(a, b)))
  }

  /** Along `b`, every cell has a distance and each drops from the one before. */
  ghost predicate Descent(g: Grid<char>, cs: seq<nat>, b: seq<Point>)
    requires |cs| == g.dx * g.dy
  {
    (forall i :: 0 <= i < |b| ==> g.IsInside(b[i]) && DistAt(g, cs, b[i]) != NEW) &&
    (forall i :: 0 <= i < |b| - 1 ==> Drop(g, cs, b[i], b[i + 1]))
  }

  /** Two descents, the second starting where the first ends, make one. */
  lemma DescentJoin(g: Grid<char>, cs: seq<nat>, a: seq<Point>, b: seq<Point>)
    requires |cs| == g.dx * g.dy && |a| > 0 && |b| > 0 && a[|a| - 1] == b[0]
    requires Descent(g, cs, a) && Descent(g, cs, b)
    ensures Descent(g, cs, a + b[1..])
  {
    var c := a + b[1..];
    forall i | 0 <= i < |c| ensures g.IsInside(c[i]) && DistAt(g, cs, c[i]) != NEW {
      if i >= |a| {
        assert c[i] == b[i - |a| + 1];
      }
    }
    forall i | 0 <= i < |c| - 1 ensures Drop(g, cs, c[i], c[i + 1]) {
      if i + 1 >= |a| {
        var j := i - |a| + 1;
        assert c[i] == b[j] && c[i + 1] == b[j + 1];
      }
    }
  }

  /** Every lower neighbour of a cell the fill reached is exactly one closer to the start. */
  lemma LowerLayer(g: Grid<char>, s: Point, ok: set<Point>, cs: seq<nat>, p: Point)
    requires |cs| == g.dx * g.dy && g.IsInside(s) && g.IsInside(p) && Filled(g, s, ok, cs)
    requires 0 < DistAt(g, cs, p) != NEW
    ensures forall x :: x in Lower(g, cs, p, DistAt(g, cs, p), 4) ==> DistAt(g, cs, x) + 1 == DistAt(g, cs, p)
  {
    var pd := DistAt(g, cs, p);
    assert Distance(ok, s, p, pd);
    WithinReachable(ok, s, p, pd);
    ReachableFree(ok, s, p);
    forall x | x in Lower(g, cs, p, pd, 4) ensures DistAt(g, cs, x) + 1 == pd {
      var xd := DistAt(g, cs, x);
      assert Distance(ok, s, x, xd);
      CloserByOne(ok, s, p, x, pd, xd);
    }
  }

  /** A neighbour of `p` closer to the start than `p` is exactly one step closer. */
  lemma CloserByOne(ok: set<Point>, s: Point, p: Point, x: Point, pd: nat, xd: nat)
    requires Distance(ok, s, p, pd) && Distance(ok, s, x, xd) && Adjacent(p, x) && p in ok && xd < pd
    ensures xd + 1 == pd
  {
    AdjacentSym(p, x);
    WithinStep(ok, s, x, p, xd);
  }

  /** A reached cell followed by its lower neighbours descends. */
  lemma HeadDescent(g: Grid<char>, s: Point, ok: set<Point>, cs: seq<nat>, p: Point, l: seq<Point>)
    requires |cs| == g.dx * g.dy && g.IsInside(s) && g.IsInside(p) && Filled(g, s, ok, cs)
    requires 0 < DistAt(g, cs, p) != NEW && l == Lower(g, cs, p, DistAt(g, cs, p), 4)
    ensures Descent(g, cs, [p] + l)
  {
    LowerLayer(g, s, ok, cs, p);
    var a := [p] + l;
    forall i | 0 <= i < |a| ensures g.IsInside(a[i]) && DistAt(g, cs, a[i]) != NEW {
      if i > 0 {
        assert a[i] in l;
      }
    }
    forall i | 0 <= i < |a| - 1 ensures Drop(g, cs, a[i], a[i + 1]) {
      assert a[i + 1] in l;
      if i > 0 {
        assert a[i] in l;
      }
    }
  }

  /**
   * From a cell the fill reached, the backtracking descends the distances step by step
   * and ends at the start.
   */
  lemma {:induction false} TraceLayers(g: Grid<char>, s: Point, ok: set<Point>, cs: seq<nat>, p: Point)
    requires |cs| == g.dx * g.dy && g.IsInside(s) && g.IsInside(p) && Filled(g, s, ok, cs)
    requires DistAt(g, cs, p) != NEW
    ensures var b := [p] + Trace(g, cs, p); b[|b| - 1] == s && Descent(g, cs, b)
    decreases DistAt(g, cs, p)
  {
    var pd := DistAt(g, cs, p);
    if pd == 0 {
      assert Trace(g, cs, p) == [];
      assert Distance(ok, s, p, 0);
      DistanceZeroStart(ok, s, p);
    } else {
      FilledDescending(g, s, ok, cs);
      var l := TraceStep(g, cs, p);
      var c := l[|l| - 1];
      HeadDescent(g, s, ok, cs, p, l);
      TraceLayers(g, s, ok, cs, c);
      var b' := [c] + Trace(g, cs, c);
      DescentJoin(g, cs, [p] + l, b');
      JoinTrail(p, l, c, Trace(g, cs, c));
    }
  }

  /** The joined descents of `TraceLayers` are the backtracking itself. */
  lemma JoinTrail(p: Point, l: seq<Point>, c: Point, rest: seq<Point>)
    ensures ([p] + l) + ([c] + rest)[1..] == [p] + (l + rest)
  {
    assert ([c] + rest)[1..] == rest;
  }

  /** From `a` to `b`, both reachable from `s`, the distance stays, or grows by one to a neighbour. */
  ghost predicate Rise(ok: set<Point>, s: Point, a: Point, b: Point)
  {
    Reachable(ok, s, a) && Reachable(ok, s, b) &&
    (Dist(ok, s, b) == Dist(ok, s, a) || (Dist(ok, s, b) == Dist(ok, s, a) + 1 && Adjacent(a, b)))
  }

  /** `path` starts at `s`, and along it the distance through `ok` rises from cell to cell. */
  ghost predicate Climbs(ok: set<Point>, s: Point, path: seq<Point>)
  {
    |path| > 0 && path[0] == s && forall i :: 0 <= i < |path| - 1 ==> Rise(ok, s, path[i], path[i + 1])
  }

  /** A drop between reached cells, read backwards, is a rise. */
  lemma DropRise(g: Grid<char>, s: Point, ok: set<Point>, cs: seq<nat>, a: Point, b: Point)
    requires |cs| == g.dx * g.dy && g.IsInside(s) && Filled(g, s, ok, cs) && Drop(g, cs, a, b)
    requires DistAt(g, cs, a) != NEW && DistAt(g, cs, b) != NEW
    ensures Rise(ok, s, b, a)
  {
    KnownDist(g, s, ok, cs, a);
    KnownDist(g, s, ok, cs, b);
    if DistAt(g, cs, b) + 1 == DistAt(g, cs, a) && Adjacent(a, b) {
      AdjacentSym(a, b);
    }
  }

  /** A distance the fill wrote is the distance of a reachable cell. */
  lemma KnownDist(g: Grid<char>, s: Point, ok: set<Point>, cs: seq<nat>, q: Point)
    requires |cs| == g.dx * g.dy && g.IsInside(s) && Filled(g, s, ok, cs)
    requires g.IsInside(q) && DistAt(g, cs, q) != NEW
    ensures Reachable(ok, s, q) && Dist(ok, s, q) == DistAt(g, cs, q)
  {
    assert Distance(ok, s, q, DistAt(g, cs, q));
    WithinReachable(ok, s, q, DistAt(g, cs, q));
    DistanceUnique(ok, s, q, DistAt(g, cs, q), Dist(ok, s, q));
  }

  /** Reversed, the backtracking from a reached cell climbs from the start. */
  lemma TraceClimbs(g: Grid<char>, s: Point, ok: set<Point>, cs: seq<nat>, e: Point)
    requires |cs| == g.dx * g.dy && g.IsInside(s) && g.IsInside(e) && Filled(g, s, ok, cs)
    requires DistAt(g, cs, e) != NEW
    ensures Climbs(ok, s, Reverse([e] + Trace(g, cs, e)))
  {
    var b := [e] + Trace(g, cs, e);
    TraceLayers(g, s, ok, cs, e);
    var path := Reverse(b);
    forall i | 0 <= i < |path| - 1 ensures Rise(ok, s, path[i], path[i + 1]) {
      var j := |b| - 1 - i;
      assert path[i] == b[j] && path[i + 1] == b[j - 1];
      DropRise(g, s, ok, cs, b[j - 1], b[j]);
    }
  }

  /** Every distance the fill wrote belongs to a reachable cell. */
  lemma FilledReachable(g: Grid<char>, s: Point, ok: set<Point>, cs: seq<nat>)
    requires |cs| == g.dx * g.dy && g.IsInside(s) && Filled(g, s, ok, cs)
    ensures forall q :: g.IsInside(q) && DistAt(g, cs, q) != NEW ==> Reachable(ok, s, q)
  {
    forall q | g.IsInside(q) && DistAt(g, cs, q) != NEW ensures Reachable(ok, s, q) {
      WithinReachable(ok, s, q, DistAt(g, cs, q));
    }
  }

  /**
   * The path of `find_path` from the fill: the end alone when the start does not reach it,
   * and otherwise a climb from the start that ends at the end.
   */
  lemma TracePath(g: Grid<char>, s: Point, ok: set<Point>, cs: seq<nat>, e: Point)
    requires |cs| == g.dx * g.dy && g.IsInside(s) && g.IsInside(e) && Filled(g, s, ok, cs)
    requires e in ok ==> (DistAt(g, cs, e) == NEW <==> !Reachable(ok, s, e))
    ensures var path := Reverse([e] + Trace(g, cs, e));
      |path| > 0 && path[|path| - 1] == e &&
      (!Reachable(ok, s, e) ==> path == [e]) &&
      (Reachable(ok, s, e) ==> Climbs(ok, s, path))
  {
    FilledReachable(g, s, ok, cs);
    if Reachable(ok, s, e) {
      if e != s {
        ReachableFree(ok, s, e);
      }
      TraceClimbs(g, s, ok, cs, e);
    }
  }

  /** A new distance grid with 0 at the start holds `NEW` everywhere else. */
  lemma StartOnly(g: Grid<char>, vis: Grid<nat>, s: Point, cs: seq<nat>)
    requires g.Valid() && g.dx == vis.dx && g.dy == vis.dy && g.IsInside(s)
    requires cs == seq(g.dx * g.dy, _ => NEW)[vis.ToIndex(s).value := 0]
    ensures forall q :: g.IsInside(q) ==> DistAt(g, cs, q) == if q == s then 0 else NEW
  {
    forall q | g.IsInside(q) && q != s ensures DistAt(g, cs, q) == NEW {
      if g.ToIndex(q) == g.ToIndex(s) {
        g.ToIndexInjective(q, s);
      }
    }
  }

  /**
   * `find_path`: the fill from the start, then the backtracking from the end. The result
   * ends at the end; it is the end alone when the start cannot reach it, and otherwise it
   * starts at the start and climbs the distances through the free cells.
   */
  method FindPath(t: Track) returns (path: seq<Point>)
    requires t.grid.Valid() && t.grid.IsInside(t.start) && t.grid.IsInside(t.end)
    requires t.grid.dx * t.grid.dy <= NEW
    ensures |path| > 0 && path[|path| - 1] == t.end
    ensures !Reachable(Free(t.grid), t.start, t.end) ==> path == [t.end]
    ensures Reachable(Free(t.grid), t.start, t.end) ==> Climbs(Free(t.grid), t.start, path)
  {
    var vis := new Grid<nat>.New(t.grid.dx, t.grid.dy, NEW);
    var _ := vis.Set(t.start, 0);
    StartOnly(t.grid, vis, t.start, vis.cells);
    Fill(t, vis);
    FilledDescending(t.grid, t.start, Free(t.grid), vis.cells);
    path := Backtrack(t, vis);
    FreeHas(t.grid, t.end);
    TracePath(t.grid, t.start, Free(t.grid), vis.cells, t.end);
  }

  /** A step to a neighbour in `ok`. */
  ghost predicate Link(ok: set<Point>, a: Point, b: Point)
  {
    Adjacent(a, b) && b in ok
  }

  /** Cells linked one after another make a walk. */
  lemma {:induction false} LinksWalk(ok: set<Point>, ps: seq<Point>)
    requires |ps| > 0 && forall i :: 0 <= i < |ps| - 1 ==> Link(ok, ps[i], ps[i + 1])
    ensures IsWalk(ok, ps)
    decreases |ps|
  {
    if |ps| > 1 {
      assert Link(ok, ps[0], ps[1]);
      var rest := ps[1..];
      forall i | 0 <= i < |rest| - 1 ensures Link(ok, rest[i], rest[i + 1]) {
        assert rest[i] == ps[i + 1] && rest[i + 1] == ps[i + 2];
      }
      LinksWalk(ok, rest);
    }
  }

  /** The start is 0 from itself. */
  lemma DistStart(ok: set<Point>, s: Point)
    ensures Reachable(ok, s, s) && Dist(ok, s, s) == 0
  {
    DistanceZero(ok, s);
    WithinReachable(ok, s, s, 0);
    DistanceUnique(ok, s, s, 0, Dist(ok, s, s));
  }

  /** Along a climb the distance of a cell is at most its position. */
  lemma {:induction false} ClimbUp(ok: set<Point>, s: Point, path: seq<Point>, i: nat)
    requires Climbs(ok, s, path) && i < |path|
    ensures Reachable(ok, s, path[i]) && Dist(ok, s, path[i]) <= i
  {
    if i == 0 {
      DistStart(ok, s);
    } else {
      ClimbUp(ok, s, path, i - 1);
      assert Rise(ok, s, path[i - 1], path[i]);
    }
  }

  /** Along a climb the last distance exceeds that of a cell by at most the cells after it. */
  lemma {:induction false} ClimbRest(ok: set<Point>, s: Point, path: seq<Point>, i: nat)
    requires Climbs(ok, s, path) && i < |path| && Reachable(ok, s, path[i]) && Reachable(ok, s, path[|path| - 1])
    ensures Dist(ok, s, path[|path| - 1]) <= Dist(ok, s, path[i]) + (|path| - 1 - i)
    decreases |path| - i
  {
    if i < |path| - 1 {
      assert Rise(ok, s, path[i], path[i + 1]);
      ClimbRest(ok, s, path, i + 1);
    }
  }

  /**
   * A climb no longer than the distance of its last cell takes a step to a neighbour at
   * every cell: it is a shortest walk from the start to the last cell, which is what
   * `find_path` returns on a track without forks.
   */
  lemma TightClimb(ok: set<Point>, s: Point, path: seq<Point>)
    requires Climbs(ok, s, path) && Reachable(ok, s, path[|path| - 1])
    requires Dist(ok, s, path[|path| - 1]) == |path| - 1
    ensures IsWalk(ok, path) && path[0] == s && Distance(ok, s, path[|path| - 1], |path| - 1)
  {
    DistStart(ok, s);
    forall i | 0 <= i < |path| - 1 ensures Link(ok, path[i], path[i + 1]) {
      ClimbUp(ok, s, path, i);
      ClimbUp(ok, s, path, i + 1);
      ClimbRest(ok, s, path, i + 1);
      assert Rise(ok, s, path[i], path[i + 1]);
      assert Dist(ok, s, path[i + 1]) > 0;
      ReachableFree(ok, s, path[i + 1]);
    }
    LinksWalk(ok, path);
  }

  // ---------------------------------------------------------------- find_cheats

  /** `i as u16`: the low 16 bits. */
  function U16(i: int): (r: nat)
    ensures r < 65536
  {
    i % 65536
  }

  /** The fold of `find_cheats` at `q`: the last index of `q` in `path`, as a `u16`, or `NEW` off the path. */
  function Stamp(path: seq<Point>, q: Point): nat
  {
    if path == [] then NEW
    else if path[|path| - 1] == q then U16(|path| - 1)
    else Stamp(path[..|path| - 1], q)
  }

  /** A cell off the path keeps `NEW`. */
  lemma {:induction false} StampOff(path: seq<Point>, q: Point)
    requires q !in path
    ensures Stamp(path, q) == NEW
  {
    if path != [] {
      StampOff(path[..|path| - 1], q);
    }
  }

  /** On a path of at most 65536 cells, a cell on it holds its last index. */
  lemma {:induction false} StampOn(path: seq<Point>, q: Point)
    requires |path| <= 65536 && q in path
    ensures Stamp(path, q) < |path| && path[Stamp(path, q)] == q
    ensures forall j :: Stamp(path, q) < j < |path| ==> path[j] != q
  {
    var n := |path| - 1;
    if path[n] != q {
      assert q in path[..n];
      StampOn(path[..n], q);
    }
  }

  /** The cell of the index grid at `p`: `None` outside the `dx` by `dy` grid. */
  function Cell(dx: int, dy: int, path: seq<Point>, p: Point): Option<nat>
  {
    if 0 <= p.x < dx && 0 <= p.y < dy then Some(Stamp(path, p)) else None
  }

  /**
   * The index grid of `find_cheats`: `NEW` everywhere, then each cell of `path` in turn
   * overwritten with its index as a `u16`.
   */
  method StampPath(dx: int, dy: int, path: seq<Point>) returns (m: Grid<nat>)
    requires 0 <= dx && 0 <= dy
    requires forall i :: 0 <= i < |path| ==> 0 <= path[i].x < dx && 0 <= path[i].y < dy
    ensures fresh(m) && m.Valid() && m.dx == dx && m.dy == dy
    ensures forall q :: m.Get(q) == Cell(dx, dy, path, q)
  {
    m := new Grid<nat>.New(dx, dy, NEW);
    for i := 0 to |path|
      invariant fresh(m) && m.Valid() && m.dx == dx && m.dy == dy
      invariant forall q :: m.Get(q) == Cell(dx, dy, path[..i], q)
    {
      ghost var cs := m.cells;
      forall q | m.IsInside(q) ensures cs[m.ToIndex(q).value] == Stamp(path[..i], q) {
        assert m.Get(q) == Cell(dx, dy, path[..i], q);
      }
      var _ := m.Set(path[i], U16(i));
      StampNext(m, cs, path, i);
    }
    assert path[..|path|] == path;
  }

  /** Writing index `i` at `path[i]` takes the index grid from `path[..i]` to `path[..i + 1]`. */
  lemma StampNext(m: Grid<nat>, cs: seq<nat>, path: seq<Point>, i: nat)
    requires m.Valid() && i < |path| && m.IsInside(path[i]) && |cs| == m.dx * m.dy
    requires m.cells == cs[m.ToIndex(path[i]).value := U16(i)]
    requires forall q :: m.IsInside(q) ==> cs[m.ToIndex(q).value] == Stamp(path[..i], q)
    ensures forall q :: m.Get(q) == Cell(m.dx, m.dy, path[..i + 1], q)
  {
    assert path[..i + 1][..i] == path[..i];
    forall q | m.IsInside(q) && q != path[i] ensures m.cells[m.ToIndex(q).value] == cs[m.ToIndex(q).value] {
      if m.ToIndex(q) == m.ToIndex(path[i]) {
        m.ToIndexInjective(q, path[i]);
      }
    }
  }

  /** The direction of a cheat key, `(q, i)`, taken back from the wall `q` to the path cell it starts at. */
  function Origin(key: (Point, nat)): Point
    requires key.1 < 4
  {
    key.0.Sub(STEPS[key.1])
  }

  /**
   * The indices `(pn, rn)` a cheat from path cell `p` in direction `i` joins: `p + STEPS[i]`
   * is off the path, `p + 2 STEPS[i]` is on it with `rn < pn`.
   */
  function Shortcut(dx: int, dy: int, path: seq<Point>, p: Point, i: nat): Option<(nat, nat)>
    requires i < 4
  {
    var q := p.Add(STEPS[i]);
    var r := q.Add(STEPS[i]);
    match Cell(dx, dy, path, p)
    case None => None
    case Some(pn) =>
      if pn == NEW then None
      else if Cell(dx, dy, path, q) == Some(NEW) && Cell(dx, dy, path, r).Some? && Cell(dx, dy, path, r).value < pn
      then Some((pn, Cell(dx, dy, path, r).value))
      else None
  }

  /** `key` names a cheat: a wall and the direction it was stepped into from the path. */
  predicate IsCheatKey(dx: int, dy: int, path: seq<Point>, key: (Point, nat))
  {
    key.1 < 4 && Shortcut(dx, dy, path, Origin(key), key.1).Some?
  }

  /** What a cheat saves: the indices it skips less the two steps it takes. */
  function Saving(dx: int, dy: int, path: seq<Point>, key: (Point, nat)): int
    requires IsCheatKey(dx, dy, path, key)
  {
    var (pn, rn) := Shortcut(dx, dy, path, Origin(key), key.1).value;
    pn - rn - 2
  }

  /** No cheat joins consecutive indices, so the `u16` subtraction `pn - rn - 2` does not overflow. */
  ghost predicate NoShortJump(dx: int, dy: int, path: seq<Point>)
  {
    forall key :: IsCheatKey(dx, dy, path, key) ==> Saving(dx, dy, path, key) >= 0
  }

  /** `cheats` holds the cheats from the path cells at index below `k`, each with its saving. */
  ghost predicate CheatsBelow(m: Grid<nat>, path: seq<Point>, cheats: map<(Point, nat), nat>, k: nat)
  {
    (forall key :: key in cheats <==> IsCheatKey(m.dx, m.dy, path, key) && m.ToIndex(Origin(key)).value < k) &&
    (forall key :: key in cheats ==> cheats[key] == Saving(m.dx, m.dy, path, key))
  }

  /** `m` is the index grid of `path`. */
  ghost predicate Stamped(m: Grid<nat>, path: seq<Point>)
    reads m
  {
    m.Valid() && forall q :: m.Get(q) == Cell(m.dx, m.dy, path, q)
  }

  /** The inner loop of `find_cheats` at path cell `p`, index `k` in storage order: the cheats in the four directions. */
  method CheatsAt(m: Grid<nat>, ghost path: seq<Point>, p: Point, pn: nat, k: nat, cheats: map<(Point, nat), nat>)
    returns (cheats': map<(Point, nat), nat>)
    requires Stamped(m, path) && NoShortJump(m.dx, m.dy, path)
    requires m.ToIndex(p) == Some(k) && m.Get(p) == Some(pn) && pn != NEW
    requires CheatsBelow(m, path, cheats, k)
    ensures CheatsBelow(m, path, cheats', k + 1)
  {
    cheats' := cheats;
    for i := 0 to 4
      invariant forall key :: key in cheats' <==>
        IsCheatKey(m.dx, m.dy, path, key) && (m.ToIndex(Origin(key)).value < k || (Origin(key) == p && key.1 < i))
      invariant forall key :: key in cheats' ==> cheats'[key] == Saving(m.dx, m.dy, path, key)
    {
      var q := p.Add(STEPS[i]);
      var r := q.Add(STEPS[i]);
      assert Origin((q, i)) == p;
      if m.Get(q) == Some(NEW) {
        var rv := m.Get(r);
        if rv.Some? {
          var rn := rv.value;
          if rn < pn {
            assert IsCheatKey(m.dx, m.dy, path, (q, i));
            assert Saving(m.dx, m.dy, path, (q, i)) == pn - rn - 2;
            cheats' := cheats'[(q, i) := pn - rn - 2];
          }
        }
      }
      forall key: (Point, nat) | key.1 == i && Origin(key) == p
        ensures key in cheats' <==> IsCheatKey(m.dx, m.dy, path, key)
      {
        assert key.0 == q;
      }
    }
    forall key: (Point, nat) | IsCheatKey(m.dx, m.dy, path, key)
      ensures m.ToIndex(Origin(key)).value < k + 1 <==> m.ToIndex(Origin(key)).value < k || Origin(key) == p
    {
      if m.ToIndex(Origin(key)).value == k {
        m.ToIndexInjective(Origin(key), p);
      }
    }
  }

  /** A cell off the path starts no cheat. */
  lemma SkipCell(m: Grid<nat>, path: seq<Point>, p: Point, k: nat, cheats: map<(Point, nat), nat>)
    requires Stamped(m, path) && m.ToIndex(p) == Some(k) && m.Get(p) == Some(NEW)
    requires CheatsBelow(m, path, cheats, k)
    ensures CheatsBelow(m, path, cheats, k + 1)
  {
    forall key: (Point, nat) | IsCheatKey(m.dx, m.dy, path, key) && m.ToIndex(Origin(key)).value == k
      ensures false
    {
      m.ToIndexInjective(Origin(key), p);
    }
  }

  /**
   * `find_cheats`: every wall cell `q` one step off the path, entered in direction `i`, whose
   * next cell in that direction is an earlier point of the path, keyed `(q, i)` and mapped
   * to the saving.
   */
  method FindCheats(dx: int, dy: int, path: seq<Point>) returns (cheats: map<(Point, nat), nat>)
    requires 0 <= dx && 0 <= dy
    requires forall i :: 0 <= i < |path| ==> 0 <= path[i].x < dx && 0 <= path[i].y < dy
    requires NoShortJump(dx, dy, path)
    ensures forall key :: key in cheats <==> IsCheatKey(dx, dy, path, key)
    ensures forall key :: key in cheats ==> cheats[key] == Saving(dx, dy, path, key)
  {
    var m := StampPath(dx, dy, path);
    var cells := m.Iter();
    cheats := map[];
    for k := 0 to |cells|
      modifies {}
      invariant CheatsBelow(m, path, cheats, k)
    {
      var (p, pn) := cells[k];
      assert m.ToIndex(p) == Some(k) && m.Get(p) == Some(pn) by {
        assert p == m.Positions()[k];
      }
      if pn == NEW {
        SkipCell(m, path, p, k, cheats);
        continue;
      }
      cheats := CheatsAt(m, path, p, pn, k, cheats);
    }
  }

  /** Consecutive cells of `path` are adjacent, as on the path `find_path` returns for a tight race. */
  predicate Chain(path: seq<Point>)
  {
    forall i :: 0 <= i < |path| - 1 ==> Adjacent(path[i], path[i + 1])
  }

  /** A walk is a chain. */
  lemma {:induction false} WalkChain(ok: set<Point>, path: seq<Point>)
    requires IsWalk(ok, path)
    ensures Chain(path)
    decreases |path|
  {
    if |path| > 1 {
      WalkChain(ok, path[1..]);
      forall i | 0 <= i < |path| - 1 ensures Adjacent(path[i], path[i + 1]) {
        if i > 0 {
          assert path[i] == path[1..][i - 1] && path[i + 1] == path[1..][i];
        }
      }
    }
  }

  /** A cell two steps away in one direction is not adjacent. */
  lemma TwoStepsApart(p: Point, i: nat)
    requires i < 4
    ensures !Adjacent(p.Add(STEPS[i]).Add(STEPS[i]), p)
  {
  }

  /** On a chain short enough for `u16` indices, each cheat saves at least nothing, so `pn - rn - 2` does not underflow. */
  lemma ChainNoShortJump(dx: int, dy: int, path: seq<Point>)
    requires Chain(path) && |path| <= NEW
    ensures NoShortJump(dx, dy, path)
  {
    forall key: (Point, nat) | IsCheatKey(dx, dy, path, key) ensures Saving(dx, dy, path, key) >= 0 {
      var p := Origin(key);
      var i := key.1;
      var r := key.0.Add(STEPS[i]);
      var (pn, rn) := Shortcut(dx, dy, path, p, i).value;
      assert Cell(dx, dy, path, p) == Some(pn) && Cell(dx, dy, path, r) == Some(rn);
      assert p in path by {
        if p !in path {
          StampOff(path, p);
        }
      }
      StampOn(path, p);
      assert r in path by {
        if r !in path {
          StampOff(path, r);
        }
      }
      StampOn(path, r);
      assert key.0 == p.Add(STEPS[i]);
      TwoStepsApart(p, i);
      assert Adjacent(path[rn], path[rn + 1]);
    }
  }

  /** Two chains joined through one cell adjacent to both ends make a chain. */
  lemma ChainJoin(a: seq<Point>, q: Point, b: seq<Point>)
    requires Chain(a) && Chain(b) && |a| > 0 && |b| > 0
    requires Adjacent(a[|a| - 1], q) && Adjacent(q, b[0])
    ensures Chain(a + [q] + b)
  {
    var c := a + [q] + b;
    forall i | 0 <= i < |c| - 1 ensures Adjacent(c[i], c[i + 1]) {
      if i >= |a| + 1 {
        assert c[i] == b[i - |a| - 1] && c[i + 1] == b[i - |a|];
      }
    }
  }

  /**
   * What a cheat means: along a chain, the race that runs to the later cell `r` two steps past `q`,
   * crosses the cell `q` off the path, and goes on from `p` is again a chain from the start to the end,
   * shorter by the saving.
   */
  lemma CheatRoute(dx: int, dy: int, path: seq<Point>, key: (Point, nat)) returns (route: seq<Point>)
    requires Chain(path) && |path| <= NEW && IsCheatKey(dx, dy, path, key)
    ensures |route| > 0 && Chain(route) && route[0] == path[0] && route[|route| - 1] == path[|path| - 1]
    ensures key.0 in route && key.0 !in path
    ensures |route| + Saving(dx, dy, path, key) == |path|
  {
    var p := Origin(key);
    var i := key.1;
    var q := key.0;
    var r := q.Add(STEPS[i]);
    var (pn, rn) := Shortcut(dx, dy, path, p, i).value;
    assert Cell(dx, dy, path, p) == Some(pn) && Cell(dx, dy, path, r) == Some(rn);
    assert Cell(dx, dy, path, q) == Some(NEW) by {
      assert q == p.Add(STEPS[i]);
    }
    assert p in path by {
      if p !in path {
        StampOff(path, p);
      }
    }
    StampOn(path, p);
    assert r in path by {
      if r !in path {
        StampOff(path, r);
      }
    }
    StampOn(path, r);
    assert q !in path by {
      if q in path {
        StampOn(path, q);
      }
    }
    ChainNoShortJump(dx, dy, path);
    assert Saving(dx, dy, path, key) >= 0;
    var a := path[..rn + 1];
    var b := path[pn..];
    assert Chain(a) by {
      forall j | 0 <= j < |a| - 1 ensures Adjacent(a[j], a[j + 1]) {
        assert a[j] == path[j] && a[j + 1] == path[j + 1];
      }
    }
    assert Chain(b) by {
      forall j | 0 <= j < |b| - 1 ensures Adjacent(b[j], b[j + 1]) {
        assert b[j] == path[pn + j] && b[j + 1] == path[pn + j + 1];
      }
    }
    StepIsAdjacent(q, i);
    AdjacentSym(q, r);
    assert p.Sub(q) == STEPS[[1, 0, 3, 2][i]];
    ChainJoin(a, q, b);
    route := a + [q] + b;
  }

  // ---------------------------------------------------------------- find_cheats_new

  /** `manhattan_dist`: the number of unit steps between `p` and `q` when walls do not count. */
  function Manhattan(p: Point, q: Point): (r: nat)
    ensures r == 0 <==> p == q
  {
    Bits.Abs(p.x - q.x) + Bits.Abs(p.y - q.y)
  }

  /** The Manhattan distance is a metric: symmetric, with the triangle inequality, and 1 between adjacent cells. */
  lemma ManhattanMetric(a: Point, b: Point, c: Point)
    ensures Manhattan(a, b) == Manhattan(b, a)
    ensures Manhattan(a, c) <= Manhattan(a, b) + Manhattan(b, c)
    ensures Adjacent(a, b) <==> Manhattan(a, b) == 1
  {
  }

  /** Along a chain, cells `k` apart are at most `k` unit steps apart. */
  lemma {:induction false} ChainSpan(path: seq<Point>, i: nat, j: nat)
    requires Chain(path) && i <= j < |path|
    ensures Manhattan(path[i], path[j]) <= j - i
    decreases j - i
  {
    if i < j {
      ChainSpan(path, i, j - 1);
      ManhattanMetric(path[i], path[j - 1], path[j]);
    }
  }

  /**
   * The pairs `find_cheats_new` counts: indices `pi < qi` at least `minSave` apart whose cells are
   * within `duration` unit steps, and whose saving, the track distance less the cheat's, passes `check`.
   */
  predicate Jump(path: seq<Point>, duration: nat, minSave: nat, check: nat -> bool, pi: nat, qi: nat)
    requires NoUnderflow(path, duration, minSave)
  {
    pi + minSave <= qi < |path| &&
    Manhattan(path[pi], path[qi]) <= duration && check(qi - pi - Manhattan(path[pi], path[qi]))
  }

  /** The `usize` subtraction `d_normal - d_cheat` does not underflow on any pair that passes the first test. */
  predicate NoUnderflow(path: seq<Point>, duration: nat, minSave: nat)
  {
    forall pi, qi :: 0 <= pi && pi + minSave <= qi < |path| && Manhattan(path[pi], path[qi]) <= duration ==>
      Manhattan(path[pi], path[qi]) <= qi - pi
  }

  /** A chain never underflows. */
  lemma ChainNoUnderflow(path: seq<Point>, duration: nat, minSave: nat)
    requires Chain(path)
    ensures NoUnderflow(path, duration, minSave)
  {
    forall pi, qi | 0 <= pi && pi + minSave <= qi < |path| && Manhattan(path[pi], path[qi]) <= duration
      ensures Manhattan(path[pi], path[qi]) <= qi - pi
    {
      ChainSpan(path, pi, qi);
    }
  }

  /** All pairs of indices below `n`. */
  ghost function Pairs(n: nat): set<(nat, nat)>
  {
    set pi: nat, qi: nat | pi < n && qi < n :: (pi, qi)
  }

  /** The counted pairs. */
  ghost function Jumps(path: seq<Point>, duration: nat, minSave: nat, check: nat -> bool): set<(nat, nat)>
    requires NoUnderflow(path, duration, minSave)
  {
    set x | x in Pairs(|path|) && Jump(path, duration, minSave, check, x.0, x.1)
  }

  /** The filtered count over `qi` in `from..|path|` for one `pi`. */
  function CountRow(path: seq<Point>, duration: nat, minSave: nat, check: nat -> bool, pi: nat, from: nat): nat
    requires NoUnderflow(path, duration, minSave)
    decreases |path| - from
  {
    if from >= |path| then 0
    else (if Jump(path, duration, minSave, check, pi, from) then 1 else 0) + CountRow(path, duration, minSave, check, pi, from + 1)
  }

  /** The filtered count over `pi` in `from..|path|`, each row starting at `pi + minSave`. */
  function CountFrom(path: seq<Point>, duration: nat, minSave: nat, check: nat -> bool, from: nat): nat
    requires NoUnderflow(path, duration, minSave)
    decreases |path| - from
  {
    if from >= |path| then 0
    else CountRow(path, duration, minSave, check, from, from + minSave) + CountFrom(path, duration, minSave, check, from + 1)
  }

  /** `find_cheats_new`: the number of pairs of path cells a cheat of at most `duration` steps joins, filtered by `check`. */
  function CountNew(path: seq<Point>, duration: nat, minSave: nat, check: nat -> bool): (r: nat)
    requires NoUnderflow(path, duration, minSave)
    ensures r == |Jumps(path, duration, minSave, check)|
  {
    CountFromCard(path, duration, minSave, check, 0);
    assert JumpsFrom(path, duration, minSave, check, 0) == Jumps(path, duration, minSave, check);
    CountFrom(path, duration, minSave, check, 0)
  }

  ghost function RowJumps(path: seq<Point>, duration: nat, minSave: nat, check: nat -> bool, pi: nat, from: nat): set<(nat, nat)>
    requires NoUnderflow(path, duration, minSave)
  {
    set x | x in Pairs(|path|) && x.0 == pi && from <= x.1 && Jump(path, duration, minSave, check, x.0, x.1)
  }

  ghost function JumpsFrom(path: seq<Point>, duration: nat, minSave: nat, check: nat -> bool, from: nat): set<(nat, nat)>
    requires NoUnderflow(path, duration, minSave)
  {
    set x | x in Pairs(|path|) && from <= x.0 && Jump(path, duration, minSave, check, x.0, x.1)
  }

  /** A row is its first candidate, if it is counted, and the rest of the row. */
  lemma RowSplit(path: seq<Point>, duration: nat, minSave: nat, check: nat -> bool, pi: nat, from: nat)
    requires NoUnderflow(path, duration, minSave) && from < |path|
    ensures RowJumps(path, duration, minSave, check, pi, from) ==
      (if Jump(path, duration, minSave, check, pi, from) then {(pi, from)} else {}) + RowJumps(path, duration, minSave, check, pi, from + 1)
    ensures (pi, from) !in RowJumps(path, duration, minSave, check, pi, from + 1)
  {
  }

  /** A row counts its pairs. */
  lemma {:induction false} CountRowCard(path: seq<Point>, duration: nat, minSave: nat, check: nat -> bool, pi: nat, from: nat)
    requires NoUnderflow(path, duration, minSave)
    ensures CountRow(path, duration, minSave, check, pi, from) == |RowJumps(path, duration, minSave, check, pi, from)|
    decreases |path| - from
  {
    if from >= |path| {
      assert RowJumps(path, duration, minSave, check, pi, from) == {};
    } else {
      CountRowCard(path, duration, minSave, check, pi, from + 1);
      RowSplit(path, duration, minSave, check, pi, from);
    }
  }

  /** The pairs from row `from` on are that row's and the later rows', which share none. */
  lemma FromSplit(path: seq<Point>, duration: nat, minSave: nat, check: nat -> bool, from: nat)
    requires NoUnderflow(path, duration, minSave) && from < |path|
    ensures JumpsFrom(path, duration, minSave, check, from) ==
      RowJumps(path, duration, minSave, check, from, from + minSave) + JumpsFrom(path, duration, minSave, check, from + 1)
    ensures |JumpsFrom(path, duration, minSave, check, from)| ==
      |RowJumps(path, duration, minSave, check, from, from + minSave)| + |JumpsFrom(path, duration, minSave, check, from + 1)|
  {
    var row := RowJumps(path, duration, minSave, check, from, from + minSave);
    var rest := JumpsFrom(path, duration, minSave, check, from + 1);
    assert row * rest == {};
    DisjointCard(row, rest);
  }

  /** The rows from `from` on count their pairs. */
  lemma {:induction false} CountFromCard(path: seq<Point>, duration: nat, minSave: nat, check: nat -> bool, from: nat)
    requires NoUnderflow(path, duration, minSave)
    ensures CountFrom(path, duration, minSave, check, from) == |JumpsFrom(path, duration, minSave, check, from)|
    decreases |path| - from
  {
    if from >= |path| {
      assert JumpsFrom(path, duration, minSave, check, from) == {};
    } else {
      var row := RowJumps(path, duration, minSave, check, from, from + minSave);
      var rest := JumpsFrom(path, duration, minSave, check, from + 1);
      CountRowCard(path, duration, minSave, check, from, from + minSave);
      CountFromCard(path, duration, minSave, check, from + 1);
      FromSplit(path, duration, minSave, check, from);
    }
  }

  lemma DisjointCard<T>(a: set<T>, b: set<T>)
    requires a * b == {}
    ensures |a + b| == |a| + |b|
  {
  }
}

/**
 * Day 18: bytes fall onto a square memory grid, one coordinate per input line. A
 * breadth-first flood from the bottom-right corner gives every free cell its distance;
 * the first answer is the distance of the top-left corner once the first `len` bytes
 * have fallen, the second the first byte after which that corner cannot be reached.
 */
module Day18 {
  import opened Wrappers
  import opened Text
  import opened Grids
  import opened BreadthFirst

  /** `NOT_REACHED`, `u16::MAX`: the mark of a cell the flood has not reached. */
  const NOT_REACHED: nat := UNSEEN

  const I32_MIN: int := -0x8000_0000
  const I32_MAX: int := 0x7fff_ffff

  // ---------------------------------------------------------------- coordinates

  /** One line as a point: `x,y` with two `i32`s; any other line is no point. */
  function Coord(line: string): Option<Point>
  {
    match SplitOnce(line, ',')
    case None => None
    case Some((x, y)) =>
      match ParseInt(x, I32_MIN, I32_MAX)
      case None => None
      case Some(px) =>
        match ParseInt(y, I32_MIN, I32_MAX)
        case None => None
        case Some(py) => Some(Point(px, py))
  }

  /** The points of the lines that are points, in order; the other lines are skipped. */
  function CoordsOf(ls: seq<string>): (r: seq<Point>)
    ensures |r| <= |ls|
  {
    if ls == [] then []
    else (match Coord(ls[0]) case None => [] case Some(p) => [p]) + CoordsOf(ls[1..])
  }

  /** `coords`: the points of the input's lines. */
  function Coords(input: string): seq<Point>
  {
    CoordsOf(Lines(input))
  }

  /** A point written as its input line. */
  function Render(p: Point): string
  {
    IntToString(p.x) + "," + IntToString(p.y)
  }

  /** Points written one per line. */
  function RenderAll(ps: seq<Point>): (r: seq<string>)
    ensures |r| == |ps|
  {
    if ps == [] then [] else [Render(ps[0])] + RenderAll(ps[1..])
  }

  predicate IsI32Point(p: Point)
  {
    I32_MIN <= p.x <= I32_MAX && I32_MIN <= p.y <= I32_MAX
  }

  /** A decimal form holds neither `,` nor a line break. */
  lemma DecimalChars(v: int)
    ensures ',' !in IntToString(v) && '\n' !in IntToString(v) && '\r' !in IntToString(v)
  {
    IntToStringChars(v);
  }

  /** A point's line reads back as the point. */
  lemma CoordOfRender(p: Point)
    requires IsI32Point(p)
    ensures Coord(Render(p)) == Some(p)
  {
    DecimalChars(p.x);
    SplitOnceAt(IntToString(p.x), ',', IntToString(p.y));
    ParseIntOfIntToString(p.x, I32_MIN, I32_MAX);
    ParseIntOfIntToString(p.y, I32_MIN, I32_MAX);
  }

  /** Points written one per line read back as the same points. */
  lemma {:induction false} CoordsOfRender(ps: seq<Point>)
    requires forall i :: 0 <= i < |ps| ==> IsI32Point(ps[i])
    ensures Coords(Unlines(RenderAll(ps))) == ps
  {
    RenderedLines(ps);
    LinesOfUnlines(RenderAll(ps));
    ReadBack(ps);
  }

  lemma {:induction false} RenderedLines(ps: seq<Point>)
    ensures forall line :: line in RenderAll(ps) ==> '\n' !in line && (|line| == 0 || line[|line| - 1] != '\r')
  {
    if ps != [] {
      RenderedLines(ps[1..]);
      var line := Render(ps[0]);
      DecimalChars(ps[0].x);
      DecimalChars(ps[0].y);
      IntToStringChars(ps[0].y);
    }
  }

  lemma {:induction false} ReadBack(ps: seq<Point>)
    requires forall i :: 0 <= i < |ps| ==> IsI32Point(ps[i])
    ensures CoordsOf(RenderAll(ps)) == ps
  {
    if ps != [] {
      CoordOfRender(ps[0]);
      ReadBack(ps[1..]);
      assert RenderAll(ps)[1..] == RenderAll(ps[1..]);
    }
  }

  // ---------------------------------------------------------------- the memory grid

  /** The corner the flood starts from, `(dx - 1, dy - 1)`. */
  function Goal(g: Grid<char>): Point
  {
    Point(g.dx - 1, g.dy - 1)
  }

  /** The free cells of a snapshot of the grid: `.`, where no byte has fallen. */
  ghost function Open(g: Grid<char>, gs: seq<char>): set<Point>
    requires |gs| == g.dx * g.dy
  {
    set q | q in g.AllPoints() && g.IsInside(q) && g.At(gs, q) == '.'
  }

  lemma OpenHas(g: Grid<char>, gs: seq<char>, q: Point)
    requires |gs| == g.dx * g.dy
    ensures q in Open(g, gs) <==> g.IsInside(q) && g.At(gs, q) == '.'
  {
    g.AllPointsHas(q);
  }

  /**
   * The four neighbours of `p`: each that is free in `grid` and has no distance yet gets
   * `n + 1` and joins the back of the queue.
   */
  method Expand(grid: Grid<char>, vis: Grid<nat>, p: Point, n: nat, queue: seq<(Point, nat)>)
    returns (queue': seq<(Point, nat)>, ghost added: set<Point>)
    requires grid.Valid() && vis.Valid() && grid.dx == vis.dx && grid.dy == vis.dy
    requires grid as object != vis as object
    requires |vis.cells| <= NOT_REACHED && n < Reached(vis.cells)
    modifies vis
    ensures vis.Valid() && Expanded(grid, Open(grid, grid.cells), p, n, old(vis.cells), vis.cells, queue, queue', added, 4)
  {
    ghost var ok := Open(grid, grid.cells);
    ghost var cs0 := vis.cells;
    queue', added := queue, {};
    for k := 0 to 4
      invariant vis.Valid() && Expanded(grid, ok, p, n, cs0, vis.cells, queue, queue', added, k)
    {
      var q := p.Add(STEPS[k]);
      OpenHas(grid, grid.cells, q);
      ghost var cs := vis.cells;
      var marked := false;
      if grid.Get(q) == Some('.') {
        assert vis.ToIndex(q) == grid.ToIndex(q);
        match vis.Get(q)
        case Some(qv) =>
          if qv == NOT_REACHED {
            ReachedBelow(cs, vis.ToIndex(q).value);
            var _ := vis.Set(q, n + 1);
            StepIsAdjacent(p, k);
            ExpandMark(grid, ok, p, n, cs0, cs, vis.cells, queue, queue', added, k, q);
            queue' := queue' + [(q, n + 1)];
            added := added + {q};
            marked := true;
          }
        case None =>
      }
      if !marked {
        ExpandSkip(grid, ok, p, n, cs0, vis.cells, queue, queue', added, k);
      }
    }
  }

  /**
   * `flood`: resets every cell to `NOT_REACHED`, then searches breadth first from the
   * goal `(dx - 1, dy - 1)` through the free cells. Every cell a walk reaches ends up with
   * its shortest distance, every other with `NOT_REACHED`.
   */
  method Flood(grid: Grid<char>, vis: Grid<nat>)
    requires grid.Valid() && vis.Valid() && grid.dx == vis.dx && grid.dy == vis.dy
    requires grid as object != vis as object
    requires 0 < grid.dx && 0 < grid.dy && grid.dx * grid.dy <= NOT_REACHED
    modifies vis
    ensures vis.Valid() && Flooded(grid, Goal(grid), Open(grid, grid.cells), vis.cells)
  {
    ghost var ok := Open(grid, grid.cells);
    forall q | q in ok ensures grid.IsInside(q) {
      OpenHas(grid, grid.cells, q);
    }
    vis.Fill(NOT_REACHED);
    var goal := Point(grid.dx - 1, grid.dy - 1);
    var queue := [(goal, 0)];
    ghost var done: set<Point> := {};
    BfsStart(grid, Goal(grid), ok, vis.cells);
    while queue != []
      invariant vis.Valid() && Bfs(grid, Goal(grid), ok, vis.cells, queue, done)
      decreases |vis.cells| - Reached(vis.cells), |queue|
    {
      ghost var cs := vis.cells;
      ghost var queue0 := queue;
      var (p, n) := queue[0];
      assert queue[0] in queue;
      queue := queue[1..];
      var _ := vis.Set(p, n);
      assert vis.ToIndex(p) == grid.ToIndex(p);
      ghost var cs1 := vis.cells;
      PopView(grid, Goal(grid), ok, cs, queue0, done, cs1);
      ghost var added;
      queue, added := Expand(grid, vis, p, n, queue);
      RoundOf(grid, Goal(grid), ok, cs, queue0, done, cs1, vis.cells, queue, added);
      BfsRound(grid, Goal(grid), ok, cs, queue0, done, vis.cells, queue, added);
      done := done + {p};
    }
    BfsEnd(grid, Goal(grid), ok, vis.cells, done);
  }

  // ---------------------------------------------------------------- the two questions

  /** The cells of the `n` by `n` memory that none of the bytes `fallen` has hit. */
  ghost function FreeAfter(n: int, fallen: seq<Point>): set<Point>
  {
    set x, y | 0 <= x < n && 0 <= y < n && Point(x, y) !in fallen :: Point(x, y)
  }

  lemma FreeAfterHas(n: int, fallen: seq<Point>, q: Point)
    ensures q in FreeAfter(n, fallen) <==> 0 <= q.x < n && 0 <= q.y < n && q !in fallen
  {
    if 0 <= q.x < n && 0 <= q.y < n && q !in fallen {
      assert Point(q.x, q.y) == q;
    }
  }

  /** After the bytes `fallen`, no walk through free cells leads from `(dim, dim)` to `(0, 0)`. */
  ghost predicate Cut(dim: int, fallen: seq<Point>)
  {
    !Reachable(FreeAfter(dim + 1, fallen), Point(dim, dim), Point(0, 0))
  }

  /** For each byte, whether the corner is cut off once it and the bytes before it are down. */
  ghost function Cuts(dim: int, ps: seq<Point>): seq<bool>
  {
    seq(|ps|, j requires 0 <= j < |ps| => CutAt(dim, ps, j))
  }

  /** Whether the corner is cut off once byte `j` and the bytes before it are down. */
  ghost predicate CutAt(dim: int, ps: seq<Point>, j: nat)
    requires j < |ps|
  {
    Cut(dim, ps[..j + 1])
  }

  lemma CutsAt(dim: int, ps: seq<Point>, j: nat)
    requires j < |ps|
    ensures |Cuts(dim, ps)| == |ps| && Cuts(dim, ps)[j] == Cut(dim, ps[..j + 1])
  {
  }

  /** The first of the first `i` bytes whose flag is set, as `(x, y)`. */
  function FirstFlagged(ps: seq<Point>, flags: seq<bool>, i: nat): Option<(int, int)>
    requires |flags| == |ps| && i <= |ps|
  {
    if i == 0 then None
    else if FirstFlagged(ps, flags, i - 1).Some? then FirstFlagged(ps, flags, i - 1)
    else if flags[i - 1] then Some((ps[i - 1].x, ps[i - 1].y))
    else None
  }

  lemma {:induction false} FirstFlaggedSome(ps: seq<Point>, flags: seq<bool>, i: nat) returns (k: nat)
    requires |flags| == |ps| && i <= |ps| && FirstFlagged(ps, flags, i).Some?
    ensures k < i && FirstFlagged(ps, flags, i) == Some((ps[k].x, ps[k].y))
    ensures flags[k] && forall j :: 0 <= j < k ==> !flags[j]
  {
    if FirstFlagged(ps, flags, i - 1).Some? {
      k := FirstFlaggedSome(ps, flags, i - 1);
    } else {
      k := i - 1;
      FirstFlaggedNone(ps, flags, i - 1);
    }
  }

  lemma {:induction false} FirstFlaggedNone(ps: seq<Point>, flags: seq<bool>, i: nat)
    requires |flags| == |ps| && i <= |ps| && FirstFlagged(ps, flags, i).None?
    ensures forall j :: 0 <= j < i ==> !flags[j]
  {
    if i > 0 {
      FirstFlaggedNone(ps, flags, i - 1);
    }
  }

  /** `star2`'s answer: the first byte after whose fall the corner is cut off. */
  ghost function FirstCut(dim: int, ps: seq<Point>): Option<(int, int)>
  {
    FirstFlagged(ps, Cuts(dim, ps), |ps|)
  }

  /** More fallen bytes free fewer cells: once cut off, the corner stays cut off. */
  lemma CutPersists(dim: int, ps: seq<Point>, i: nat, j: nat)
    requires i <= j <= |ps| && Cut(dim, ps[..i])
    ensures Cut(dim, ps[..j])
  {
    var small, big := FreeAfter(dim + 1, ps[..j]), FreeAfter(dim + 1, ps[..i]);
    forall q | q in small ensures q in big {
      FreeAfterHas(dim + 1, ps[..j], q);
      FreeAfterHas(dim + 1, ps[..i], q);
      assert ps[..i] == ps[..j][..i];
    }
    if Reachable(small, Point(dim, dim), Point(0, 0)) {
      var ws :| IsWalk(small, ws) && ws[0] == Point(dim, dim) && ws[|ws| - 1] == Point(0, 0);
      WalkMono(small, big, ws);
      assert false;
    }
  }

  /** A found byte cuts the corner off, and none before it does. */
  lemma FirstCutSome(dim: int, ps: seq<Point>) returns (k: nat)
    requires FirstCut(dim, ps).Some?
    ensures k < |ps| && FirstCut(dim, ps) == Some((ps[k].x, ps[k].y)) && Cut(dim, ps[..k + 1])
    ensures forall j :: 0 <= j < k ==> !Cuts(dim, ps)[j]
  {
    k := FirstFlaggedSome(ps, Cuts(dim, ps), |ps|);
  }

  /** Nothing found: no byte cuts the corner off, not even the last one. */
  lemma FirstCutNone(dim: int, ps: seq<Point>)
    requires FirstCut(dim, ps).None?
    ensures forall j :: 0 <= j < |ps| ==> !Cuts(dim, ps)[j]
    ensures |ps| > 0 ==> !Cut(dim, ps)
  {
    FirstFlaggedNone(ps, Cuts(dim, ps), |ps|);
    if |ps| > 0 {
      assert ps[..|ps|] == ps;
      assert !Cuts(dim, ps)[|ps| - 1];
    }
  }

  /** Free cells in `small` are the free cells of `big` but some that the goal cannot reach in `big`. */
  ghost predicate Shadowed(g: Grid<char>, big: set<Point>, small: set<Point>)
  {
    small <= big && forall x {:trigger Reachable(big, Goal(g), x)} :: x in big && x !in small ==> !Reachable(big, Goal(g), x)
  }

  /** What a flooded grid says about one cell. */
  lemma FloodedAt(g: Grid<char>, ok: set<Point>, cs: seq<nat>, q: Point)
    requires |cs| == g.dx * g.dy && Flooded(g, Goal(g), ok, cs) && g.IsInside(q)
    ensures DistAt(g, cs, q) == NOT_REACHED <==> !Reachable(ok, Goal(g), q)
    ensures DistAt(g, cs, q) != NOT_REACHED ==> Distance(ok, Goal(g), q, DistAt(g, cs, q))
  {
  }

  /** Cells the goal cannot reach make no difference to the flood. */
  lemma FloodedShrink(g: Grid<char>, big: set<Point>, small: set<Point>, cs: seq<nat>)
    requires |cs| == g.dx * g.dy && Flooded(g, Goal(g), big, cs) && Shadowed(g, big, small)
    ensures Flooded(g, Goal(g), small, cs)
  {
    var goal := Goal(g);
    forall q | g.IsInside(q) ensures (DistAt(g, cs, q) == NOT_REACHED <==> !Reachable(small, goal, q)) &&
      (DistAt(g, cs, q) != NOT_REACHED ==> Distance(small, goal, q, DistAt(g, cs, q)))
    {
      ReachableShrink(big, small, goal, q);
      var d := DistAt(g, cs, q);
      if d != NOT_REACHED {
        WithinShrink(big, small, goal, q, d);
        forall m: nat | m < d ensures !Within(small, goal, q, m) {
          WithinShrink(big, small, goal, q, m);
        }
      }
    }
  }

  /** A smaller set reaches less. */
  lemma ReachableMono(small: set<Point>, big: set<Point>, s: Point, q: Point)
    requires small <= big && Reachable(small, s, q)
    ensures Reachable(big, s, q)
  {
    var ws :| IsWalk(small, ws) && ws[0] == s && ws[|ws| - 1] == q;
    WalkMono(small, big, ws);
  }

  /**
   * The fold of `star1`: a fresh `n` by `n` grid of `.` on which each byte that lies on the
   * grid lands as `#`; bytes off the grid are ignored.
   */
  method Fallen(n: int, fallen: seq<Point>) returns (grid: Grid<char>)
    requires 0 <= n
    ensures fresh(grid) && grid.Valid() && grid.dx == n && grid.dy == n
    ensures forall q :: grid.IsInside(q) ==> grid.At(grid.cells, q) == if q in fallen then '#' else '.'
    ensures Open(grid, grid.cells) == FreeAfter(n, fallen)
  {
    grid := new Grid<char>.New(n, n, '.');
    for i := 0 to |fallen|
      invariant grid.Valid() && grid.dx == n && grid.dy == n
      invariant forall q :: grid.IsInside(q) ==> grid.At(grid.cells, q) == if q in fallen[..i] then '#' else '.'
    {
      var _ := grid.Set(fallen[i], '#');
      forall q | grid.IsInside(q) ensures grid.At(grid.cells, q) == if q in fallen[..i + 1] then '#' else '.' {
        assert fallen[..i + 1] == fallen[..i] + [fallen[i]];
        if q != fallen[i] && grid.IsInside(fallen[i]) && grid.ToIndex(q) == grid.ToIndex(fallen[i]) {
          grid.ToIndexInjective(q, fallen[i]);
        }
      }
    }
    assert fallen[..|fallen|] == fallen;
    OpenAfterDrop(grid, grid.cells, fallen);
  }

  /** The free cells of a fresh `.` grid once the bytes `fallen` have been dropped. */
  lemma OpenAfterDrop(g: Grid<char>, cs: seq<char>, fallen: seq<Point>)
    requires g.dx == g.dy && |cs| == g.dx * g.dy
    requires forall q :: g.IsInside(q) ==> g.At(cs, q) == if q in fallen then '#' else '.'
    ensures Open(g, cs) == FreeAfter(g.dx, fallen)
  {
    forall q ensures q in Open(g, cs) <==> q in FreeAfter(g.dx, fallen) {
      OpenHas(g, cs, q);
      FreeAfterHas(g.dx, fallen, q);
    }
  }

  /**
   * `star1`: lets the first `len` bytes fall on a `dim + 1` square (those off the grid do
   * nothing), floods from `(dim, dim)`, and returns the distance of `(0, 0)`: its shortest
   * distance when a walk through free cells reaches it, `NOT_REACHED` when none does.
   */
  method Star1(input: string, dim: int, len: nat) returns (r: nat)
    requires 0 <= dim && (dim + 1) * (dim + 1) <= NOT_REACHED
    ensures var ps := Coords(input);
            var free := FreeAfter(dim + 1, ps[..if len < |ps| then len else |ps|]);
            (r == NOT_REACHED <==> !Reachable(free, Point(dim, dim), Point(0, 0))) &&
            (r != NOT_REACHED ==> Distance(free, Point(dim, dim), Point(0, 0), r))
  {
    var ps := Coords(input);
    var fallen := ps[..if len < |ps| then len else |ps|];
    var grid := Fallen(dim + 1, fallen);
    r := Shortest(grid);
  }

  /**
   * The end of `star1`: floods a fresh distance grid from the goal corner and reads the
   * distance of `(0, 0)`, defaulting to 0 should it lie outside.
   */
  method Shortest(grid: Grid<char>) returns (r: nat)
    requires grid.Valid() && 0 < grid.dx && 0 < grid.dy && grid.dx * grid.dy <= NOT_REACHED
    ensures var free := Open(grid, grid.cells);
            (r == NOT_REACHED <==> !Reachable(free, Goal(grid), Point(0, 0))) &&
            (r != NOT_REACHED ==> Distance(free, Goal(grid), Point(0, 0), r))
  {
    var reach := new Grid<nat>.New(grid.dx, grid.dy, NOT_REACHED);
    Flood(grid, reach);
    SameIndex(grid, reach, Point(0, 0));
    var v := reach.Get(Point(0, 0));
    var d: int := if v.Some? then v.value else 0;
    FloodedAt(grid, Open(grid, grid.cells), reach.cells, Point(0, 0));
    r := d;
  }

  /** Writing `#` on an inside cell takes exactly that cell out of the free ones. */
  lemma OpenBlock(g: Grid<char>, cs: seq<char>, p: Point)
    requires |cs| == g.dx * g.dy && g.IsInside(p)
    ensures Open(g, cs[g.ToIndex(p).value := '#']) == Open(g, cs) - {p}
  {
    var cs' := cs[g.ToIndex(p).value := '#'];
    forall q ensures q in Open(g, cs') <==> q in Open(g, cs) - {p} {
      OpenHas(g, cs', q);
      OpenHas(g, cs, q);
      if g.IsInside(q) && q != p && g.ToIndex(q) == g.ToIndex(p) {
        g.ToIndexInjective(q, p);
      }
    }
  }

  /** The next fallen byte, on a cell inside the square. */
  lemma FreeAfterNext(n: int, ps: seq<Point>, i: nat)
    requires i < |ps| && 0 <= ps[i].x < n && 0 <= ps[i].y < n
    ensures FreeAfter(n, ps[..i + 1]) == FreeAfter(n, ps[..i]) - {ps[i]}
  {
    assert ps[..i + 1] == ps[..i] + [ps[i]];
    forall q ensures q in FreeAfter(n, ps[..i + 1]) <==> q in FreeAfter(n, ps[..i]) - {ps[i]} {
      FreeAfterHas(n, ps[..i + 1], q);
      FreeAfterHas(n, ps[..i], q);
    }
  }

  /** A byte on a reached cell: blocking it keeps the shadow once the flood is redone. */
  lemma ShadowBlocked(g: Grid<char>, big: set<Point>, small: set<Point>, p: Point)
    requires Shadowed(g, big, small)
    ensures Shadowed(g, big - {p}, small - {p})
  {
    forall x | x in big - {p} && x !in small - {p} ensures !Reachable(big - {p}, Goal(g), x) {
      if Reachable(big - {p}, Goal(g), x) {
        ReachableMono(big - {p}, big, Goal(g), x);
      }
    }
  }

  /** A byte on an unreached cell: the grid may keep it free. */
  lemma ShadowSkipped(g: Grid<char>, big: set<Point>, small: set<Point>, p: Point)
    requires Shadowed(g, big, small) && !Reachable(big, Goal(g), p)
    ensures Shadowed(g, big, small - {p})
  {
  }

  /**
   * The state `star2` keeps between bytes, once the bytes `ps[..i]` have fallen: the flood
   * is exact for the grid, and the grid's free cells differ from the cells no byte hit only
   * by cells the flood did not reach.
   */
  ghost predicate Tracks(grid: Grid<char>, reach: Grid<nat>, ps: seq<Point>, i: nat)
    reads grid, reach
  {
    grid.Valid() && reach.Valid() && grid.dx == reach.dx == grid.dy == reach.dy &&
    0 < grid.dx && grid.dx * grid.dy <= NOT_REACHED && i <= |ps| &&
    Flooded(grid, Goal(grid), Open(grid, grid.cells), reach.cells) &&
    Shadowed(grid, Open(grid, grid.cells), FreeAfter(grid.dx, ps[..i]))
  }

  /**
   * Lines of `star2` that handle byte `ps[i]`: when the flood reached its cell, the cell
   * is blocked and the flood redone; otherwise nothing changes, as blocking an unreached
   * cell changes no distance.
   */
  method Fall(grid: Grid<char>, reach: Grid<nat>, ps: seq<Point>, i: nat) returns (pReach: nat)
    requires grid as object != reach as object
    requires Tracks(grid, reach, ps, i) && i < |ps| && grid.IsInside(ps[i])
    modifies grid, reach
    ensures Tracks(grid, reach, ps, i + 1)
    ensures pReach == DistAt(grid, old(reach.cells), ps[i])
    ensures grid.cells == if pReach != NOT_REACHED then old(grid.cells)[grid.ToIndex(ps[i]).value := '#'] else old(grid.cells)
  {
    var p := ps[i];
    ghost var free := FreeAfter(grid.dx, ps[..i]);
    SameIndex(grid, reach, p);
    pReach := reach.Get(p).value;
    if pReach != NOT_REACHED {
      ghost var cs := grid.cells;
      var _ := grid.Set(p, '#');
      OpenBlock(grid, cs, p);
      ShadowBlocked(grid, Open(grid, cs), free, p);
      Flood(grid, reach);
    } else {
      FloodedAt(grid, Open(grid, grid.cells), reach.cells, p);
      ShadowSkipped(grid, Open(grid, grid.cells), free, p);
    }
    FreeAfterNext(grid.dx, ps, i);
  }

  /**
   * The test of `star2` after byte `ps[i]`: the first byte after which `(0, 0)` is
   * unreached is kept as the answer.
   */
  method Check(grid: Grid<char>, reach: Grid<nat>, ps: seq<Point>, i: nat, block: Option<(int, int)>)
    returns (block': Option<(int, int)>)
    requires Tracks(grid, reach, ps, i + 1) && i < |ps|
    requires block == FirstFlagged(ps, Cuts(grid.dx - 1, ps), i)
    ensures block' == FirstFlagged(ps, Cuts(grid.dx - 1, ps), i + 1)
  {
    var start := Point(0, 0);
    ghost var free := FreeAfter(grid.dx, ps[..i + 1]);
    SameIndex(grid, reach, start);
    FloodedShrink(grid, Open(grid, grid.cells), free, reach.cells);
    FloodedAt(grid, free, reach.cells, start);
    CutsAt(grid.dx - 1, ps, i);
    assert Goal(grid) == Point(grid.dx - 1, grid.dx - 1);
    var startReach := reach.Get(start).value;
    assert startReach == DistAt(grid, reach.cells, start);
    block' := block;
    if block.None? && startReach == NOT_REACHED {
      block' := Some((ps[i].x, ps[i].y));
    }
  }

  /**
   * `star2`: floods the empty square, then lets the bytes fall one by one. The answer is
   * the first byte after which `(0, 0)` is unreached.
   */
  method Star2(input: string, dim: int) returns (block: Option<(int, int)>)
    requires 0 <= dim && (dim + 1) * (dim + 1) <= NOT_REACHED
    requires forall i :: 0 <= i < |Coords(input)| ==> 0 <= Coords(input)[i].x <= dim && 0 <= Coords(input)[i].y <= dim
    ensures block == FirstCut(dim, Coords(input))
  {
    var ps := Coords(input);
    var grid := new Grid<char>.New(dim + 1, dim + 1, '.');
    var reach := new Grid<nat>.New(dim + 1, dim + 1, NOT_REACHED);
    OpenAfterDrop(grid, grid.cells, []);
    assert ps[..0] == [];
    Flood(grid, reach);
    block := None;
    for i := 0 to |ps|
      invariant Tracks(grid, reach, ps, i) && grid.dx == dim + 1
      invariant block == FirstFlagged(ps, Cuts(dim, ps), i)
    {
      var _ := Fall(grid, reach, ps, i);
      block := Check(grid, reach, ps, i, block);
    }
  }
}

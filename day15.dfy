/**
 * Day 15: a robot pushes boxes around a warehouse. Each move steps the robot onto
 * free floor, or pushes the whole run of boxes in front of it when the run ends in
 * free floor, or leaves everything as it was. The answer sums `x + 100 * y` over
 * the boxes after all moves.
 */
module Day15 {
  import opened Wrappers
  import opened Text
  import opened Grids

  const BOX: char := 'O'
  const FLOOR: char := '.'
  const ROBOT: char := '@'

  // ---------------------------------------------------------------- warehouse states

  /** `cs` is storage for a grid of the shape of `g`. */
  predicate Fits(g: Grid<char>, cs: seq<char>)
  {
    0 <= g.dx && 0 <= g.dy && |cs| == g.dx * g.dy
  }

  /** The cell at `p` of storage `cs` laid out like `g`; `None` outside the grid. */
  function CellOf(g: Grid<char>, cs: seq<char>, p: Point): (r: Option<char>)
    requires Fits(g, cs)
    ensures r.None? <==> !g.IsInside(p)
  {
    match g.ToIndex(p)
    case None => None
    case Some(i) => Some(cs[i])
  }

  /** The point `i` steps from `p`. */
  function Ray(p: Point, step: Point, i: nat): Point
  {
    Point(p.x + i * step.x, p.y + i * step.y)
  }

  /** One step and then `i` more is `i + 1` steps. */
  lemma RayNext(p: Point, step: Point, i: nat)
    ensures Ray(p.Add(step), step, i) == Ray(p, step, i + 1)
  {
    assert (i + 1) * step.x == i * step.x + step.x;
    assert (i + 1) * step.y == i * step.y + step.y;
  }

  /** How many more steps of `step` stay inside the grid, from an inside `q`. */
  function Room(g: Grid<char>, q: Point, step: Point): int
  {
    if step.x > 0 then g.dx - q.x
    else if step.x < 0 then q.x + 1
    else if step.y > 0 then g.dy - q.y
    else q.y + 1
  }

  /**
   * The length of the run of boxes from `p` along `step`: every cell of the run is a
   * box, and the cell just past it is not.
   */
  function BoxRun(g: Grid<char>, cs: seq<char>, p: Point, step: Point): (n: nat)
    requires Fits(g, cs) && step in STEPS
    ensures forall i :: 0 <= i < n ==> CellOf(g, cs, Ray(p, step, i)) == Some(BOX)
    ensures CellOf(g, cs, Ray(p, step, n)) != Some(BOX)
    decreases Room(g, p, step)
  {
    assert Ray(p, step, 0) == p;
    if CellOf(g, cs, p) == Some(BOX) then
      var n := BoxRun(g, cs, p.Add(step), step);
      forall i | 1 <= i <= n + 1 ensures Ray(p, step, i) == Ray(p.Add(step), step, i - 1) {
        RayNext(p, step, i - 1);
      }
      n + 1
    else 0
  }

  /**
   * `try_push_boxes` as a value: when the run of boxes from `p` ends in free floor,
   * that floor becomes a box and `p` becomes floor; otherwise `None`.
   */
  function Push(g: Grid<char>, cs: seq<char>, p: Point, step: Point): (r: Option<seq<char>>)
    requires Fits(g, cs) && step in STEPS
    ensures r.Some? ==> Fits(g, r.value)
  {
    var q := Ray(p, step, BoxRun(g, cs, p, step));
    if CellOf(g, cs, q) == Some(FLOOR) then
      assert g.IsInside(p) by { if BoxRun(g, cs, p, step) > 0 { assert CellOf(g, cs, Ray(p, step, 0)) == Some(BOX); } }
      Some(cs[g.ToIndex(q).value := BOX][g.ToIndex(p).value := FLOOR])
    else None
  }

  /**
   * `step_robot` as a value: the new storage and robot position. The robot walks onto
   * floor, pushes into a box, and stays put at a wall, at a failed push or at the edge.
   */
  function Robot(g: Grid<char>, cs: seq<char>, p0: Point, step: Point): (r: (seq<char>, Point))
    requires Fits(g, cs) && step in STEPS
    ensures Fits(g, r.0)
  {
    var p1 := p0.Add(step);
    match CellOf(g, cs, p1)
    case Some(c) =>
      if c == FLOOR then (cs, p1)
      else if c == BOX then
        match Push(g, cs, p1, step)
        case Some(cs') => (cs', p1)
        case None => (cs, p0)
      else (cs, p0)
    case None => (cs, p0)
  }

  /** The map and robot position after every move, in order. */
  function RunMoves(g: Grid<char>, cs: seq<char>, p: Point, moves: seq<Point>): (r: (seq<char>, Point))
    requires Fits(g, cs) && forall i :: 0 <= i < |moves| ==> moves[i] in STEPS
    ensures Fits(g, r.0)
    decreases |moves|
  {
    if moves == [] then (cs, p)
    else
      var (cs', p') := Robot(g, cs, p, moves[0]);
      RunMoves(g, cs', p', moves[1..])
  }

  // ---------------------------------------------------------------- what a move does

  /** A successful push turns the cell past the run into a box and `p` into floor, and nothing else. */
  lemma PushChangesTwo(g: Grid<char>, cs: seq<char>, p: Point, step: Point)
    requires Fits(g, cs) && step in STEPS && Push(g, cs, p, step).Some?
    ensures var q := Ray(p, step, BoxRun(g, cs, p, step));
      var cs' := Push(g, cs, p, step).value;
      CellOf(g, cs, q) == Some(FLOOR) && CellOf(g, cs', p) == Some(FLOOR) &&
      (q != p ==> CellOf(g, cs', q) == Some(BOX)) &&
      forall r :: r != p && r != q ==> CellOf(g, cs', r) == CellOf(g, cs, r)
  {
    var q := Ray(p, step, BoxRun(g, cs, p, step));
    var cs' := Push(g, cs, p, step).value;
    assert g.IsInside(q);
    assert g.IsInside(p) by { if BoxRun(g, cs, p, step) > 0 { assert CellOf(g, cs, Ray(p, step, 0)) == Some(BOX); } }
    forall r | r != p && r != q
      ensures CellOf(g, cs', r) == CellOf(g, cs, r)
    {
      if g.IsInside(r) {
        if g.ToIndex(r) == g.ToIndex(p) { g.ToIndexInjective(r, p); }
        if g.ToIndex(r) == g.ToIndex(q) { g.ToIndexInjective(r, q); }
      }
    }
    if q != p && g.ToIndex(q) == g.ToIndex(p) { g.ToIndexInjective(q, p); }
  }

  /** A push moves cells around and never creates or destroys a box, a wall or floor. */
  lemma PushPermutes(g: Grid<char>, cs: seq<char>, p: Point, step: Point)
    requires Fits(g, cs) && step in STEPS && Push(g, cs, p, step).Some?
    ensures multiset(Push(g, cs, p, step).value) == multiset(cs)
  {
    var q := Ray(p, step, BoxRun(g, cs, p, step));
    var n := BoxRun(g, cs, p, step);
    assert g.IsInside(p) by { if n > 0 { assert CellOf(g, cs, Ray(p, step, 0)) == Some(BOX); } }
    var iq, ip := g.ToIndex(q).value, g.ToIndex(p).value;
    var mid := cs[iq := BOX];
    assert multiset(mid) == multiset(cs) - multiset{FLOOR} + multiset{BOX};
    if n == 0 {
      assert q == p;
      assert mid[ip := FLOOR] == cs;
    } else {
      assert CellOf(g, cs, Ray(p, step, 0)) == Some(BOX);
      assert Ray(p, step, 0) == p;
      assert mid[ip] == BOX;
      assert multiset(mid[ip := FLOOR]) == multiset(mid) - multiset{BOX} + multiset{FLOOR};
    }
  }

  /** A move leaves the robot in place or one step further on. */
  lemma RobotMovesOneStep(g: Grid<char>, cs: seq<char>, p0: Point, step: Point)
    requires Fits(g, cs) && step in STEPS
    ensures var r := Robot(g, cs, p0, step);
      (r.1 == p0 && r.0 == cs) || r.1 == p0.Add(step)
  {
  }

  /** A move never changes what the warehouse holds: the cells are permuted. */
  lemma RobotPermutes(g: Grid<char>, cs: seq<char>, p0: Point, step: Point)
    requires Fits(g, cs) && step in STEPS
    ensures multiset(Robot(g, cs, p0, step).0) == multiset(cs)
  {
    var p1 := p0.Add(step);
    if CellOf(g, cs, p1) == Some(BOX) && Push(g, cs, p1, step).Some? {
      PushPermutes(g, cs, p1, step);
    }
  }

  /** The robot stands on floor inside the grid, and a move keeps it so. */
  lemma RobotStaysOnFloor(g: Grid<char>, cs: seq<char>, p0: Point, step: Point)
    requires Fits(g, cs) && step in STEPS && CellOf(g, cs, p0) == Some(FLOOR)
    ensures var r := Robot(g, cs, p0, step); CellOf(g, r.0, r.1) == Some(FLOOR)
  {
    var p1 := p0.Add(step);
    if CellOf(g, cs, p1) == Some(BOX) && Push(g, cs, p1, step).Some? {
      PushChangesTwo(g, cs, p1, step);
    }
  }

  /** After any sequence of moves the robot still stands on floor and the cells are permuted. */
  lemma {:induction false} RunKeepsFloor(g: Grid<char>, cs: seq<char>, p: Point, moves: seq<Point>)
    requires Fits(g, cs) && (forall i :: 0 <= i < |moves| ==> moves[i] in STEPS)
    requires CellOf(g, cs, p) == Some(FLOOR)
    ensures var r := RunMoves(g, cs, p, moves);
      CellOf(g, r.0, r.1) == Some(FLOOR) && multiset(r.0) == multiset(cs)
    decreases |moves|
  {
    if moves != [] {
      var (cs', p') := Robot(g, cs, p, moves[0]);
      RobotStaysOnFloor(g, cs, p, moves[0]);
      RobotPermutes(g, cs, p, moves[0]);
      RunKeepsFloor(g, cs', p', moves[1..]);
    }
  }

  // ---------------------------------------------------------------- the moves in place

  /**
   * `try_push_boxes`: scans from `p` past the boxes; when the first other cell is floor,
   * writes a box there and floor at `p`. A failed push writes nothing.
   */
  method TryPushBoxes(g: Grid<char>, p: Point, step: Point) returns (ok: bool)
    requires g.Valid() && step in STEPS
    modifies g
    ensures g.Valid()
    ensures ok <==> Push(g, old(g.cells), p, step).Some?
    ensures ok ==> g.cells == Push(g, old(g.cells), p, step).value
    ensures !ok ==> g.cells == old(g.cells)
  {
    ghost var n := BoxRun(g, g.cells, p, step);
    var q := p;
    ghost var i: nat := 0;
    while g.Get(q) == Some(BOX)
      invariant q == Ray(p, step, i) && i <= n
      decreases Room(g, q, step)
    {
      q := q.Add(step);
      i := i + 1;
    }
    if g.Get(q) == Some(FLOOR) {
      assert g.IsInside(p) by { if n > 0 { assert CellOf(g, g.cells, Ray(p, step, 0)) == Some(BOX); } }
      var _ := g.Set(q, BOX);
      var _ := g.Set(p, FLOOR);
      return true;
    }
    return false;
  }

  /** `step_robot`: one move, in place; the new position is returned. */
  method StepRobot(g: Grid<char>, p0: Point, step: Point) returns (p: Point)
    requires g.Valid() && step in STEPS
    modifies g
    ensures g.Valid() && (g.cells, p) == Robot(g, old(g.cells), p0, step)
  {
    var p1 := p0.Add(step);
    var c := g.Get(p1);
    if c == Some(FLOOR) {
      return p1;
    } else if c == Some(BOX) {
      var ok := TryPushBoxes(g, p1, step);
      return if ok then p1 else p0;
    }
    return p0;
  }

  // ---------------------------------------------------------------- the moves list

  /** The unit step of an arrow character, and nothing for any other character. */
  function MoveOf(c: char): (r: Option<Point>)
    ensures r.Some? <==> c in "^<>v"
    ensures r.Some? ==> r.value in STEPS
  {
    match c
    case '^' => Some(Point(0, -1))
    case '<' => Some(Point(-1, 0))
    case '>' => Some(Point(1, 0))
    case 'v' => Some(Point(0, 1))
    case _ => None
  }

  /** The arrow character of a unit step. */
  function Arrow(step: Point): (c: char)
    requires step in STEPS
    ensures MoveOf(c) == Some(step)
  {
    if step == Point(0, -1) then '^'
    else if step == Point(-1, 0) then '<'
    else if step == Point(1, 0) then '>'
    else 'v'
  }

  /** `moves_iter`: the steps of the arrows of `s`, in order, dropping every other character. */
  function Moves(s: string): (r: seq<Point>)
    ensures |r| <= |s|
    ensures forall i :: 0 <= i < |r| ==> r[i] in STEPS
  {
    if s == [] then []
    else
      var rest := Moves(s[1..]);
      match MoveOf(s[0])
      case Some(d) => [d] + rest
      case None => rest
  }

  /** Moves do not depend on how the input is cut. */
  lemma {:induction false} MovesAppend(s: string, t: string)
    ensures Moves(s + t) == Moves(s) + Moves(t)
  {
    if s == [] {
      assert s + t == t;
    } else {
      assert (s + t)[0] == s[0];
      assert (s + t)[1..] == s[1..] + t;
      MovesAppend(s[1..], t);
      match MoveOf(s[0])
      case Some(d) =>
        assert Moves(s + t) == [d] + (Moves(s[1..]) + Moves(t));
      case None =>
    }
  }

  /** Characters other than arrows, such as line breaks, add no move. */
  lemma {:induction false} MovesSkip(s: string)
    requires forall i :: 0 <= i < |s| ==> s[i] !in "^<>v"
    ensures Moves(s) == []
  {
    if s != [] {
      MovesSkip(s[1..]);
    }
  }

  /** Writing steps as arrows and reading them back gives the steps. */
  lemma {:induction false} MovesOfArrows(steps: seq<Point>)
    requires forall i :: 0 <= i < |steps| ==> steps[i] in STEPS
    ensures Moves(seq(|steps|, i requires 0 <= i < |steps| => Arrow(steps[i]))) == steps
  {
    var s := seq(|steps|, i requires 0 <= i < |steps| => Arrow(steps[i]));
    if steps != [] {
      var s' := seq(|steps| - 1, i requires 0 <= i < |steps| - 1 => Arrow(steps[1..][i]));
      assert s[1..] == s';
      MovesOfArrows(steps[1..]);
      assert steps == [steps[0]] + steps[1..];
    }
  }

  // ---------------------------------------------------------------- the GPS sum

  /** The GPS coordinate of the cell at storage index `i`. */
  function Gps(g: Grid<char>, i: nat): nat
    requires g.dx > 0
  {
    i % g.dx + 100 * (i / g.dx)
  }

  /** The GPS sum over the boxes among the first `n` cells. */
  function GpsUpTo(g: Grid<char>, cs: seq<char>, n: nat): nat
    requires g.dx > 0 && n <= |cs|
  {
    if n == 0 then 0
    else GpsUpTo(g, cs, n - 1) + (if cs[n - 1] == BOX then Gps(g, n - 1) else 0)
  }

  /** The GPS sum of every box. */
  function GpsSum(g: Grid<char>, cs: seq<char>): nat
    requires g.dx > 0
  {
    GpsUpTo(g, cs, |cs|)
  }

  /** Writing one cell changes the sum by what that cell contributes before and after. */
  lemma {:induction false} GpsUpToWrite(g: Grid<char>, cs: seq<char>, n: nat, j: nat, c: char)
    requires g.dx > 0 && n <= |cs| && j < |cs|
    ensures GpsUpTo(g, cs[j := c], n) + (if j < n && cs[j] == BOX then Gps(g, j) else 0)
         == GpsUpTo(g, cs, n) + (if j < n && c == BOX then Gps(g, j) else 0)
  {
    if n > 0 {
      GpsUpToWrite(g, cs, n - 1, j, c);
    }
  }

  /**
   * A successful push moves the GPS sum as if only the first box of the run went to
   * the floor cell past the run.
   */
  lemma GpsPush(g: Grid<char>, cs: seq<char>, p: Point, step: Point)
    requires Fits(g, cs) && g.dx > 0 && step in STEPS && Push(g, cs, p, step).Some?
    requires CellOf(g, cs, p) == Some(BOX)
    ensures var q := Ray(p, step, BoxRun(g, cs, p, step));
      GpsSum(g, Push(g, cs, p, step).value) + Gps(g, g.ToIndex(p).value) == GpsSum(g, cs) + Gps(g, g.ToIndex(q).value)
  {
    var n := BoxRun(g, cs, p, step);
    var q := Ray(p, step, n);
    assert Ray(p, step, 0) == p;
    var iq, ip := g.ToIndex(q).value, g.ToIndex(p).value;
    var mid := cs[iq := BOX];
    GpsUpToWrite(g, cs, |cs|, iq, BOX);
    GpsUpToWrite(g, mid, |mid|, ip, FLOOR);
  }

  /**
   * `box_gps_locs`: runs every move of `moves` from `start`, in place, and sums the
   * GPS coordinates of the boxes left.
   */
  method BoxGpsLocs(g: Grid<char>, start: Point, moves: string) returns (r: nat)
    requires g.Valid() && g.dx > 0
    modifies g
    ensures g.Valid() && g.cells == RunMoves(g, old(g.cells), start, Moves(moves)).0
    ensures r == GpsSum(g, g.cells)
  {
    var ms := Moves(moves);
    var p := start;
    ghost var cs0 := g.cells;
    for i := 0 to |ms|
      invariant g.Valid()
      invariant RunMoves(g, g.cells, p, ms[i..]) == RunMoves(g, cs0, start, ms)
    {
      assert ms[i..][1..] == ms[i + 1..];
      p := StepRobot(g, p, ms[i]);
    }
    r := SumGps(g);
  }

  /** The sum over the positions of the boxes, in row-major order. */
  method SumGps(g: Grid<char>) returns (r: nat)
    requires g.Valid() && g.dx > 0
    ensures r == GpsSum(g, g.cells)
  {
    r := 0;
    for i := 0 to |g.cells|
      invariant r == GpsUpTo(g, g.cells, i)
    {
      if g.cells[i] == BOX {
        r := r + Gps(g, i);
      }
    }
  }

  // ---------------------------------------------------------------- parsing

  /**
   * `parse_map`: the grid of the map with the first `'@'` in row-major order replaced
   * by floor, and that position; an error when the map is jagged or has no robot.
   */
  method ParseMap(input: string) returns (r: Result<(Grid<char>, Point)>)
    requires exists i :: 0 <= i < |Lines(input)| && Lines(input)[i] != []
    ensures r.Ok? ==> fresh(r.value.0) && r.value.0.Valid()
    ensures r.Ok? ==> var (g, start) := r.value;
      Rectangular(Lines(input)) && g.Get(start) == Some(FLOOR) &&
      var k := FirstNonEmpty(Lines(input));
      var cs := Flatten(Lines(input)[k..]);
      g.dx == |Lines(input)[k]| && g.ToIndex(start).Some? && g.ToIndex(start).value < |cs| &&
      cs[g.ToIndex(start).value] == ROBOT && g.cells == cs[g.ToIndex(start).value := FLOOR] &&
      forall j :: 0 <= j < g.ToIndex(start).value ==> cs[j] != ROBOT
    ensures r.Err? ==> !Rectangular(Lines(input)) || ROBOT !in Flatten(Lines(input)[FirstNonEmpty(Lines(input))..])
  {
    var parsed := Parse(input);
    if parsed.Err? {
      return Err(parsed.error);
    }
    var g := parsed.value;
    var found := g.Find(ROBOT);
    if found.None? {
      return Err("input: missing start");
    }
    var start := found.value;
    var _ := g.Set(start, FLOOR);
    r := Ok((g, start));
  }
}

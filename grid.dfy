/**
 * Points, the four cardinal directions and the dense row-major grid that the
 * puzzle solutions share.
 */
module Grids {
  import opened Wrappers
  import opened Text
  import Bits

  /** A cell position: `x` grows to the right, `y` grows downwards. */
  datatype Point = Point(x: int, y: int)
  {
    function Add(o: Point): Point { Point(x + o.x, y + o.y) }

    /** Subtraction undoes addition. */
    function Sub(o: Point): (r: Point)
      ensures r.Add(o) == this
    {
      Point(x - o.x, y - o.y)
    }
  }

  /** The unit steps north, south, west and east, in the order the traversals try them. */
  const STEPS: seq<Point> := [Point(0, -1), Point(0, 1), Point(-1, 0), Point(1, 0)]

  /** The directions of `STEPS`, position for position. */
  const DIRS: seq<Dir> := [North, South, West, East]

  /** `q` is one of the four cells next to `p`. */
  predicate Adjacent(p: Point, q: Point) { q.Sub(p) in STEPS }

  /** No point occurs twice in `ps`. */
  predicate Distinct(ps: seq<Point>)
  {
    forall i, j :: 0 <= i < j < |ps| ==> ps[i] != ps[j]
  }

  /** Two sequences without repeats, with nothing in common, make one without repeats. */
  lemma DistinctConcat(ps: seq<Point>, qs: seq<Point>)
    requires Distinct(ps) && Distinct(qs) && forall q :: q in qs ==> q !in ps
    ensures Distinct(ps + qs)
  {
    var s := ps + qs;
    forall i, j | 0 <= i < j < |s| ensures s[i] != s[j] {
      if i < |ps| && j >= |ps| {
        assert s[i] == ps[i] && s[j] == qs[j - |ps|];
        assert qs[j - |ps|] in qs;
      } else if i >= |ps| {
        assert s[i] == qs[i - |ps|] && s[j] == qs[j - |ps|];
      }
    }
  }


  datatype Dir = North | South | East | West
  {
    /** The direction turned a quarter clockwise: on the screen, `(x, y)` becomes `(-y, x)`. */
    function Right(): (r: Dir)
      ensures r.Step(1) == Point(-Step(1).y, Step(1).x)
    {
      match this
      case North => East
      case East => South
      case South => West
      case West => North
    }

    /** The direction turned a quarter anticlockwise: the inverse of `Right`. */
    function Left(): (r: Dir)
      ensures r.Right() == this
    {
      match this
      case North => West
      case West => South
      case South => East
      case East => North
    }

    /** The reverse direction: its step is the negated step. */
    function Opposite(): (r: Dir)
      ensures r.Step(1) == Point(-Step(1).x, -Step(1).y)
    {
      match this
      case North => South
      case South => North
      case East => West
      case West => East
    }

    /** The slot of a direction in per-direction tables, in declaration order. */
    function Index(): (r: nat)
      ensures r < 4
    {
      match this
      case North => 0
      case South => 1
      case East => 2
      case West => 3
    }

    /** `k` cells in this direction. */
    function Step(k: int): Point
    {
      match this
      case North => Point(0, -k)
      case South => Point(0, k)
      case East => Point(k, 0)
      case West => Point(-k, 0)
    }

    /** `Step(k)` is `k` times the matching unit step of `STEPS`. */
    lemma StepScales(k: int)
      ensures exists i :: 0 <= i < 4 && DIRS[i] == this && Step(k) == Point(k * STEPS[i].x, k * STEPS[i].y)
    {
      match this
      case North => assert DIRS[0] == North;
      case South => assert DIRS[1] == South;
      case East => assert DIRS[3] == East;
      case West => assert DIRS[2] == West;
    }
  }

  /** The declaration order North < South < East < West. */
  predicate DirLess(a: Dir, b: Dir) { a.Index() < b.Index() }

  /**
   * The direction a vector points in, if it is a non-zero horizontal or vertical
   * vector; the vector is then that many cells in the direction.
   */
  function FromXY(p: Point): (r: Option<Dir>)
    ensures r.Some? <==> (p.x == 0) != (p.y == 0)
    ensures r.Some? ==> p == r.value.Step(Bits.Abs(p.x) + Bits.Abs(p.y))
  {
    if p.x == 0 then
      if p.y < 0 then Some(North) else if p.y == 0 then None else Some(South)
    else if p.y == 0 then
      if p.x < 0 then Some(West) else Some(East)
    else None
  }

  lemma {:induction false} RightFourTimes(d: Dir)
    ensures d.Right().Right().Right().Right() == d
  {
    match d
    case North =>
    case South =>
    case East =>
    case West =>
  }

  lemma {:induction false} OppositeInvolution(d: Dir)
    ensures d.Opposite().Opposite() == d && d.Opposite() != d
    ensures d.Opposite() == d.Right().Right()
  {
    match d
    case North =>
    case South =>
    case East =>
    case West =>
  }

  /** `Index` is a bijection from the directions onto 0..3. */
  lemma IndexBijection(d: Dir, e: Dir, i: nat)
    ensures d.Index() == e.Index() ==> d == e
    ensures i < 4 ==> exists f: Dir :: f.Index() == i
  {
    if i == 0 { assert North.Index() == 0; }
    else if i == 1 { assert South.Index() == 1; }
    else if i == 2 { assert East.Index() == 2; }
    else if i == 3 { assert West.Index() == 3; }
  }

  /** A step of positive length points back in its own direction. */
  lemma FromXYOfStep(d: Dir, k: int)
    requires k > 0
    ensures FromXY(d.Step(k)) == Some(d)
  {
  }

  /** The steps of `DIRS` are the steps of `STEPS`. */
  lemma DirsMatchSteps(i: nat)
    requires i < 4
    ensures DIRS[i].Step(1) == STEPS[i]
  {
  }

  // ---------------------------------------------------------------- walks

  /** A walk that moves to an adjacent cell of `ok` at every step (the first cell is free). */
  ghost predicate IsWalk(ok: set<Point>, ps: seq<Point>)
    decreases |ps|
  {
    |ps| > 0 && (|ps| == 1 || (Adjacent(ps[0], ps[1]) && ps[1] in ok && IsWalk(ok, ps[1..])))
  }

  /** Some walk through `ok` leads from `s` to `q`. */
  ghost predicate Reachable(ok: set<Point>, s: Point, q: Point)
  {
    exists ps :: IsWalk(ok, ps) && ps[0] == s && ps[|ps| - 1] == q
  }

  lemma {:induction false} WalkExtend(ok: set<Point>, ps: seq<Point>, q: Point)
    requires IsWalk(ok, ps) && Adjacent(ps[|ps| - 1], q) && q in ok
    ensures IsWalk(ok, ps + [q])
    decreases |ps|
  {
    if |ps| > 1 {
      WalkExtend(ok, ps[1..], q);
      assert (ps + [q])[1..] == ps[1..] + [q];
    } else {
      assert (ps + [q])[1..] == [q];
    }
  }

  /** Following a walk through `ok` from a reachable cell reaches its end. */
  lemma {:induction false} ReachableAlong(ok: set<Point>, s: Point, ps: seq<Point>)
    requires IsWalk(ok, ps) && Reachable(ok, s, ps[0])
    ensures Reachable(ok, s, ps[|ps| - 1])
    decreases |ps|
  {
    if |ps| > 1 {
      ReachableStep(ok, s, ps[0], ps[1]);
      ReachableAlong(ok, s, ps[1..]);
    }
  }

  /** Reachability is transitive. */
  lemma ReachableTrans(ok: set<Point>, a: Point, b: Point, c: Point)
    requires Reachable(ok, a, b) && Reachable(ok, b, c)
    ensures Reachable(ok, a, c)
  {
    var ps :| IsWalk(ok, ps) && ps[0] == b && ps[|ps| - 1] == c;
    ReachableAlong(ok, a, ps);
  }

  /** A walk through `ok` that starts in `ok` can be walked back. */
  lemma {:induction false} WalkBack(ok: set<Point>, ps: seq<Point>)
    requires IsWalk(ok, ps) && ps[0] in ok
    ensures Reachable(ok, ps[|ps| - 1], ps[0])
    decreases |ps|
  {
    if |ps| == 1 {
      assert IsWalk(ok, [ps[0]]);
    } else {
      var rest := ps[1..];
      assert rest[|rest| - 1] == ps[|ps| - 1];
      WalkBack(ok, rest);
      AdjacentSym(ps[0], ps[1]);
      ReachableStep(ok, ps[|ps| - 1], ps[1], ps[0]);
    }
  }

  /** Within `ok`, reachability is symmetric. */
  lemma ReachableSym(ok: set<Point>, a: Point, b: Point)
    requires Reachable(ok, a, b) && a in ok
    ensures Reachable(ok, b, a)
  {
    var ps :| IsWalk(ok, ps) && ps[0] == a && ps[|ps| - 1] == b;
    WalkBack(ok, ps);
  }

  /** A walk through `ok` is a walk through any larger set. */
  lemma {:induction false} WalkMono(ok: set<Point>, ok': set<Point>, ps: seq<Point>)
    requires IsWalk(ok, ps) && ok <= ok'
    ensures IsWalk(ok', ps)
    decreases |ps|
  {
    if |ps| > 1 {
      WalkMono(ok, ok', ps[1..]);
    }
  }

  /** Every cell of a walk but the first lies in `ok`; in particular its last one, unless it stayed put. */
  lemma {:induction false} WalkEnds(ok: set<Point>, ps: seq<Point>)
    requires IsWalk(ok, ps)
    ensures |ps| == 1 || ps[|ps| - 1] in ok
    decreases |ps|
  {
    if |ps| > 1 {
      WalkEnds(ok, ps[1..]);
    }
  }

  /** Adjacency goes both ways. */
  lemma AdjacentSym(p: Point, q: Point)
    requires Adjacent(p, q)
    ensures Adjacent(q, p)
  {
    var j := AdjacentStep(p, q);
    assert p.Sub(q) == STEPS[[1, 0, 3, 2][j]];
  }

  /** A set that holds `s` and is closed under steps into `ok` holds everything reachable from `s`. */
  lemma {:induction false} ClosedHoldsReachable(ok: set<Point>, closed: set<Point>, s: Point, ps: seq<Point>)
    requires s in closed
    requires forall p, q :: p in closed && Adjacent(p, q) && q in ok ==> q in closed
    requires IsWalk(ok, ps) && ps[0] == s
    ensures ps[|ps| - 1] in closed
    decreases |ps|
  {
    if |ps| > 1 {
      ClosedHoldsReachable(ok, closed, ps[1], ps[1..]);
    }
  }

  /** A walk through `ok` that starts at a cell reachable from `s` avoids every cell `s` cannot reach. */
  lemma {:induction false} WalkAvoids(ok: set<Point>, small: set<Point>, s: Point, ps: seq<Point>)
    requires small <= ok && IsWalk(ok, ps) && Reachable(ok, s, ps[0])
    requires forall x :: x in ok && x !in small ==> !Reachable(ok, s, x)
    ensures IsWalk(small, ps)
    decreases |ps|
  {
    if |ps| > 1 {
      ReachableStep(ok, s, ps[0], ps[1]);
      WalkAvoids(ok, small, s, ps[1..]);
    }
  }

  /** A walk of two or more cells is a shorter walk followed by one step into `ok`. */
  lemma {:induction false} WalkInit(ok: set<Point>, ps: seq<Point>)
    requires IsWalk(ok, ps) && |ps| > 1
    ensures IsWalk(ok, ps[..|ps| - 1]) && Adjacent(ps[|ps| - 2], ps[|ps| - 1]) && ps[|ps| - 1] in ok
    decreases |ps|
  {
    if |ps| > 2 {
      WalkInit(ok, ps[1..]);
      assert ps[1..][..|ps| - 2] == ps[..|ps| - 1][1..];
    } else {
      assert ps[..1] == [ps[0]];
    }
  }

  // ---------------------------------------------------------------- distances

  /** Some walk through `ok` of at most `n` steps leads from `s` to `q`. */
  ghost predicate Within(ok: set<Point>, s: Point, q: Point, n: nat)
  {
    exists ps :: IsWalk(ok, ps) && ps[0] == s && ps[|ps| - 1] == q && |ps| <= n + 1
  }

  /** `n` is the shortest distance from `s` to `q` through `ok`: `n` steps lead there and no fewer do. */
  ghost predicate Distance(ok: set<Point>, s: Point, q: Point, n: nat)
  {
    Within(ok, s, q, n) && forall m: nat :: m < n ==> !Within(ok, s, q, m)
  }

  /** The start is at distance 0 from itself. */
  lemma DistanceZero(ok: set<Point>, s: Point)
    ensures Distance(ok, s, s, 0)
  {
    assert IsWalk(ok, [s]);
  }

  /** One more step into `ok` leads one step further. */
  lemma WithinStep(ok: set<Point>, s: Point, p: Point, q: Point, n: nat)
    requires Within(ok, s, p, n) && Adjacent(p, q) && q in ok
    ensures Within(ok, s, q, n + 1)
  {
    var ps :| IsWalk(ok, ps) && ps[0] == s && ps[|ps| - 1] == p && |ps| <= n + 1;
    WalkExtend(ok, ps, q);
    var ps' := ps + [q];
    assert ps'[0] == s && ps'[|ps'| - 1] == q;
  }

  /** A cell within `n + 1` steps but not within `n` is one step from a cell within `n`. */
  lemma WithinPred(ok: set<Point>, s: Point, q: Point, n: nat) returns (w: Point)
    requires Within(ok, s, q, n + 1) && !Within(ok, s, q, n)
    ensures Within(ok, s, w, n) && Adjacent(w, q) && q in ok
  {
    var ps :| IsWalk(ok, ps) && ps[0] == s && ps[|ps| - 1] == q && |ps| <= n + 2;
    assert |ps| == n + 2 by {
      assert !(IsWalk(ok, ps) && ps[0] == s && ps[|ps| - 1] == q && |ps| <= n + 1);
    }
    WalkInit(ok, ps);
    w := ps[|ps| - 2];
    var init := ps[..|ps| - 1];
    assert init[0] == s && init[|init| - 1] == w;
  }

  /** A reachable cell is within some number of steps. */
  lemma ReachableWithin(ok: set<Point>, s: Point, q: Point) returns (n: nat)
    requires Reachable(ok, s, q)
    ensures Within(ok, s, q, n)
  {
    var ps :| IsWalk(ok, ps) && ps[0] == s && ps[|ps| - 1] == q;
    n := |ps| - 1;
  }

  /** A cell within some number of steps is reachable. */
  lemma WithinReachable(ok: set<Point>, s: Point, q: Point, n: nat)
    requires Within(ok, s, q, n)
    ensures Reachable(ok, s, q)
  {
    var ps :| IsWalk(ok, ps) && ps[0] == s && ps[|ps| - 1] == q && |ps| <= n + 1;
  }

  /**
   * Taking out of `ok` cells `s` cannot reach changes no distance from `s`: the same cells are
   * within the same number of steps.
   */
  lemma WithinShrink(ok: set<Point>, small: set<Point>, s: Point, q: Point, n: nat)
    requires small <= ok && forall x :: x in ok && x !in small ==> !Reachable(ok, s, x)
    ensures Within(small, s, q, n) <==> Within(ok, s, q, n)
  {
    if Within(small, s, q, n) {
      var ps :| IsWalk(small, ps) && ps[0] == s && ps[|ps| - 1] == q && |ps| <= n + 1;
      WalkMono(small, ok, ps);
    }
    if Within(ok, s, q, n) {
      var ps :| IsWalk(ok, ps) && ps[0] == s && ps[|ps| - 1] == q && |ps| <= n + 1;
      assert IsWalk(ok, [s]);
      WalkAvoids(ok, small, s, ps);
    }
  }

  /** No walk of at most `n` steps means no walk of fewer. */
  lemma NotWithinBelow(ok: set<Point>, s: Point, q: Point, k: nat, n: nat)
    requires !Within(ok, s, q, n) && k <= n
    ensures !Within(ok, s, q, k)
  {
  }

  /** Among the walks of at most `n` steps there is a shortest one. */
  lemma {:induction false} LeastWithin(ok: set<Point>, s: Point, q: Point, n: nat) returns (m: nat)
    requires Within(ok, s, q, n)
    ensures m <= n && Distance(ok, s, q, m)
    decreases n
  {
    if n > 0 && Within(ok, s, q, n - 1) {
      m := LeastWithin(ok, s, q, n - 1);
    } else {
      m := n;
      if n > 0 {
        forall k: nat | k < n ensures !Within(ok, s, q, k) {
          NotWithinBelow(ok, s, q, k, n - 1);
        }
      }
    }
  }

  /** A reachable cell has a distance. */
  lemma DistanceExists(ok: set<Point>, s: Point, q: Point)
    requires Reachable(ok, s, q)
    ensures exists n: nat :: Distance(ok, s, q, n)
  {
    var n := ReachableWithin(ok, s, q);
    var m := LeastWithin(ok, s, q, n);
  }

  /** The distance of a reachable cell: the fewest steps of a walk from `s` to it. */
  ghost function Dist(ok: set<Point>, s: Point, q: Point): (n: nat)
    requires Reachable(ok, s, q)
    ensures Distance(ok, s, q, n)
  {
    DistanceExists(ok, s, q);
    var n :| Distance(ok, s, q, n);
    n
  }

  /** A cell has one distance only. */
  lemma DistanceUnique(ok: set<Point>, s: Point, q: Point, m: nat, n: nat)
    requires Distance(ok, s, q, m) && Distance(ok, s, q, n)
    ensures m == n
  {
  }

  /** Only the start is 0 steps away. */
  lemma DistanceZeroStart(ok: set<Point>, s: Point, q: Point)
    requires Distance(ok, s, q, 0)
    ensures q == s
  {
    var ps :| IsWalk(ok, ps) && ps[0] == s && ps[|ps| - 1] == q && |ps| <= 1;
  }

  /** A cell other than the start that a walk reaches is in `ok`. */
  lemma ReachableFree(ok: set<Point>, s: Point, q: Point)
    requires Reachable(ok, s, q) && q != s
    ensures q in ok
  {
    var ps :| IsWalk(ok, ps) && ps[0] == s && ps[|ps| - 1] == q;
    WalkEnds(ok, ps);
  }

  /** Cells `s` cannot reach taken out of `ok`, reachability from `s` is the same. */
  lemma ReachableShrink(ok: set<Point>, small: set<Point>, s: Point, q: Point)
    requires small <= ok && forall x :: x in ok && x !in small ==> !Reachable(ok, s, x)
    ensures Reachable(small, s, q) <==> Reachable(ok, s, q)
  {
    if Reachable(small, s, q) {
      var n := ReachableWithin(small, s, q);
      WithinShrink(ok, small, s, q, n);
      WithinReachable(ok, s, q, n);
    }
    if Reachable(ok, s, q) {
      var n := ReachableWithin(ok, s, q);
      WithinShrink(ok, small, s, q, n);
      WithinReachable(small, s, q, n);
    }
  }

  lemma StepIsAdjacent(p: Point, k: nat)
    requires k < 4
    ensures Adjacent(p, p.Add(STEPS[k]))
  {
    assert p.Add(STEPS[k]).Sub(p) == STEPS[k];
  }

  // ---------------------------------------------------------------- grids

  /** A row of `w` points followed by `n` further rows is `n + 1` rows, row after row. */
  lemma RowsStep(w: int, y: int, n: int, row: seq<Point>, rest: seq<Point>)
    requires 0 <= w && 0 <= n
    requires row == seq(w, x => Point(x, y))
    requires |rest| == n * w
    requires forall k :: 0 <= k < |rest| ==> rest[k] == Point(k % w, y + 1 + k / w)
    ensures |row + rest| == (n + 1) * w && (w == 0 ==> row + rest == [])
    ensures forall k :: 0 <= k < |row + rest| ==> (row + rest)[k] == Point(k % w, y + k / w)
  {
    assert (n + 1) * w == w + n * w;
    forall k | 0 <= k < |row + rest|
      ensures (row + rest)[k] == Point(k % w, y + k / w)
    {
      if k < w {
        Bits.DivUnique(k, w, 0, k);
      } else {
        var j := k - w;
        Bits.DivUnique(k, w, j / w + 1, j % w);
      }
    }
  }

  /**
   * A `dx` by `dy` grid stored row by row: cell `(x, y)` lives at index `x + y * dx`.
   */
  class Grid<T(==)>
  {
    const dx: int
    const dy: int
    var cells: seq<T>

    ghost predicate Valid()
      reads this
    {
      0 <= dx && 0 <= dy && |cells| == dx * dy
    }

    /** `Grid::new`: `dx * dy` copies of `v`. */
    constructor New(dx: int, dy: int, v: T)
      requires 0 <= dx && 0 <= dy
      ensures this.dx == dx && this.dy == dy && Valid()
      ensures cells == seq(dx * dy, _ => v)
    {
      this.dx := dx;
      this.dy := dy;
      cells := seq(dx * dy, _ => v);
    }

    /** A grid over given storage, as `parse` builds it. */
    constructor Make(dx: int, dy: int, cells: seq<T>)
      requires 0 <= dx && 0 <= dy && |cells| == dx * dy
      ensures this.dx == dx && this.dy == dy && this.cells == cells && Valid()
    {
      this.dx := dx;
      this.dy := dy;
      this.cells := cells;
    }

    predicate IsInside(p: Point)
    {
      0 <= p.x < dx && 0 <= p.y < dy
    }

    /** The storage index of an inside point; `None` exactly outside the grid. */
    function ToIndex(p: Point): (r: Option<nat>)
      ensures r.Some? <==> IsInside(p)
      ensures r.Some? ==> r.value < dx * dy
    {
      if IsInside(p) then
        IndexBound(p);
        Some(p.x + p.y * dx)
      else None
    }

    lemma IndexBound(p: Point)
      requires IsInside(p)
      ensures 0 <= p.x + p.y * dx < dx * dy
    {
      assert p.y * dx <= (dy - 1) * dx by { Bits.MulMono(dx, p.y, dy - 1); }
      assert (dy - 1) * dx == dx * dy - dx;
    }

    /** The point stored at index `i`; `None` past the end, and otherwise the inverse of `ToIndex`. */
    function ToXY(i: nat): (r: Option<Point>)
      reads this
      requires Valid()
      ensures r.None? <==> i >= |cells|
      ensures r.Some? ==> IsInside(r.value) && ToIndex(r.value) == Some(i)
    {
      if i < |cells| then
        var p := Point(i % dx, i / dx);
        assert p.y < dy by {
          if p.y >= dy {
            Bits.MulMono(dx, dy, p.y);
            assert false;
          }
        }
        Some(p)
      else None
    }

    /** No two inside points share an index. */
    lemma ToIndexInjective(p: Point, q: Point)
      requires IsInside(p) && IsInside(q) && ToIndex(p) == ToIndex(q)
      ensures p == q
    {
      var i := p.x + p.y * dx;
      Bits.DivUnique(i, dx, p.y, p.x);
      Bits.DivUnique(i, dx, q.y, q.x);
    }

    lemma ToXYOfToIndex(p: Point)
      requires Valid() && IsInside(p)
      ensures ToXY(ToIndex(p).value) == Some(p)
    {
      var i := ToIndex(p).value;
      ToIndexInjective(p, ToXY(i).value);
    }

    /** The cell at `p`; `None` exactly outside the grid. */
    function Get(p: Point): (r: Option<T>)
      reads this
      requires Valid()
      ensures r.None? <==> !IsInside(p)
      ensures r.Some? ==> r.value == cells[ToIndex(p).value]
    {
      match ToIndex(p)
      case None => None
      case Some(i) => Some(cells[i])
    }

    /** `*get_mut(p) = v`: overwrites the cell at `p` when `p` is inside, and nothing else. */
    method Set(p: Point, v: T) returns (inside: bool)
      requires Valid()
      modifies this
      ensures Valid() && inside == IsInside(p)
      ensures inside ==> cells == old(cells)[ToIndex(p).value := v]
      ensures !inside ==> cells == old(cells)
    {
      inside := IsInside(p);
      if inside {
        cells := cells[ToIndex(p).value := v];
      }
    }

    /** Overwrites every cell with `v`. */
    method Fill(v: T)
      requires Valid()
      modifies this
      ensures Valid() && cells == seq(dx * dy, _ => v)
    {
      cells := seq(dx * dy, _ => v);
    }

    /** The points of rows `y..dy`, row after row. */
    function RowsFrom(y: int): (r: seq<Point>)
      requires 0 <= dx && 0 <= y <= dy
      ensures |r| == (dy - y) * dx && (dx == 0 ==> r == [])
      ensures forall k :: 0 <= k < |r| ==> r[k] == Point(k % dx, y + k / dx)
      decreases dy - y
    {
      if y == dy then []
      else
        var row := seq(dx, x => Point(x, y));
        var rest := RowsFrom(y + 1);
        RowsStep(dx, y, dy - y - 1, row, rest);
        row + rest
    }

    /** Every inside point once, in row-major order, which is storage order. */
    function Positions(): (r: seq<Point>)
      requires 0 <= dx && 0 <= dy
      ensures |r| == dx * dy
      ensures forall k :: 0 <= k < |r| ==> IsInside(r[k]) && ToIndex(r[k]) == Some(k)
    {
      var r := RowsFrom(0);
      forall k | 0 <= k < |r| ensures IsInside(r[k]) && ToIndex(r[k]) == Some(k) {
        assert r[k] == Point(k % dx, k / dx);
        assert k / dx < dy by {
          if k / dx >= dy {
            Bits.MulMono(dx, dy, k / dx);
          }
        }
      }
      r
    }

    /** Each inside point stands in `Positions` at its own index. */
    lemma PositionsComplete(p: Point)
      requires 0 <= dx && 0 <= dy && IsInside(p)
      ensures ToIndex(p).value < |Positions()| && Positions()[ToIndex(p).value] == p
    {
      var k := ToIndex(p).value;
      ToIndexInjective(p, Positions()[k]);
    }

    /** `iter`: the positions paired with the cells, which are the cells at those positions. */
    function Iter(): (r: seq<(Point, T)>)
      reads this
      requires Valid()
      ensures |r| == |cells|
      ensures forall k :: 0 <= k < |r| ==> r[k].0 == Positions()[k] && Get(r[k].0) == Some(r[k].1)
    {
      var ps := Positions();
      var cs := cells;
      seq(|cs|, k requires 0 <= k < |cs| => (ps[k], cs[k]))
    }

    /** The first position, in row-major order, that holds `what`. */
    function Find(what: T): (r: Option<Point>)
      reads this
      requires Valid()
      ensures r.None? <==> what !in cells
      ensures r.Some? ==> Get(r.value) == Some(what)
      ensures r.Some? ==> forall k :: 0 <= k < ToIndex(r.value).value ==> cells[k] != what
    {
      match FirstIndex(cells, what)
      case None => None
      case Some(i) => ToXY(i)
    }

    /** The half-open rectangle between two corners, in either order. */
    static predicate InBlock(p0: Point, p1: Point, q: Point)
    {
      Min(p0.x, p1.x) <= q.x < Max(p0.x, p1.x) && Min(p0.y, p1.y) <= q.y < Max(p0.y, p1.y)
    }

    /**
     * `fill_block`: writes `v` into the cells of the rectangle `[min, max)` spanned by
     * `p0` and `p1` that lie inside the grid, and leaves every other cell alone.
     * The row width is cast to `usize`, so a rectangle wholly left or right of the
     * grid whose rows overlap the grid is outside what the source allows.
     */
    method FillBlock(p0: Point, p1: Point, v: T)
      requires Valid()
      requires Max(Min(p0.y, p1.y), 0) < Min(Max(p0.y, p1.y), dy) ==>
                 Max(Min(p0.x, p1.x), 0) <= Min(Max(p0.x, p1.x), dx)
      modifies this
      ensures Valid()
      ensures forall q :: IsInside(q) ==>
                cells[ToIndex(q).value] == if InBlock(p0, p1, q) then v else old(cells)[ToIndex(q).value]
    {
      var x0 := Max(Min(p0.x, p1.x), 0);
      var x1 := Min(Max(p0.x, p1.x), dx);
      var y0 := Max(Min(p0.y, p1.y), 0);
      var y1 := Min(Max(p0.y, p1.y), dy);
      if y0 < y1 {
        var w := x1 - x0;
        var y := y0;
        var s := x0 + y0 * dx;
        while y < y1
          invariant y0 <= y <= y1 && s == x0 + y * dx
          invariant |cells| == dx * dy
          invariant Filled(cells, old(cells), x0, x1, y0, y, v)
        {
          RowSpan(x0, x1, y);
          ghost var before := cells;
          cells := cells[..s] + seq(w, _ => v) + cells[s + w..];
          FillRow(before, cells, old(cells), x0, x1, y0, y, v);
          assert (y + 1) * dx == y * dx + dx;
          y := y + 1;
          s := s + dx;
        }
        assert forall q :: IsInside(q) ==> (x0 <= q.x < x1 && y0 <= q.y < y1 <==> InBlock(p0, p1, q));
      } else {
        assert forall q :: IsInside(q) ==> !InBlock(p0, p1, q);
      }
    }

    /** `cs` is `orig` with `v` written over `[x0, x1)` in the rows `[y0, y)`. */
    ghost predicate Filled(cs: seq<T>, orig: seq<T>, x0: int, x1: int, y0: int, y: int, v: T)
      requires |cs| == dx * dy && |orig| == dx * dy
    {
      forall q :: IsInside(q) ==>
        cs[ToIndex(q).value] == if x0 <= q.x < x1 && y0 <= q.y < y then v else orig[ToIndex(q).value]
    }

    /** Writing row `y`'s span extends a fill of rows `[y0, y)` to `[y0, y + 1)`. */
    lemma FillRow(before: seq<T>, after: seq<T>, orig: seq<T>, x0: int, x1: int, y0: int, y: int, v: T)
      requires 0 <= x0 <= x1 <= dx && 0 <= y0 <= y < dy
      requires |before| == dx * dy && |orig| == dx * dy
      requires 0 <= x0 + y * dx && x1 + y * dx <= dx * dy
      requires after == before[..x0 + y * dx] + seq(x1 - x0, _ => v) + before[x1 + y * dx..]
      requires Filled(before, orig, x0, x1, y0, y, v)
      ensures |after| == dx * dy && Filled(after, orig, x0, x1, y0, y + 1, v)
    {
      var s, e := x0 + y * dx, x1 + y * dx;
      forall i | 0 <= i < |before| ensures after[i] == if s <= i < e then v else before[i] {
        if i < s {
          assert after[i] == before[..s][i];
        } else if i < e {
          assert after[i] == seq(x1 - x0, _ => v)[i - s];
        } else {
          assert after[i] == before[e..][i - e];
        }
      }
      forall q | IsInside(q)
        ensures after[ToIndex(q).value] == if x0 <= q.x < x1 && y0 <= q.y < y + 1 then v else orig[ToIndex(q).value]
      {
        var i := ToIndex(q).value;
        assert i == q.x + q.y * dx && i < |before|;
        assert after[i] == if s <= i < e then v else before[i];
        RowMembership(x0, x1, y, q);
      }
    }

    lemma RowSpan(x0: int, x1: int, y: int)
      requires 0 <= x0 <= x1 <= dx && 0 <= y < dy
      ensures 0 <= x0 + y * dx && x1 + y * dx <= dx * dy
    {
      assert y * dx <= (dy - 1) * dx by { Bits.MulMono(dx, y, dy - 1); }
      assert (dy - 1) * dx == dx * dy - dx;
    }

    /** The index of an inside point falls in row `y`'s span `[x0, x1)` iff the point does. */
    lemma RowMembership(x0: int, x1: int, y: int, q: Point)
      requires 0 <= x0 <= x1 <= dx && 0 <= y < dy && IsInside(q)
      ensures (x0 + y * dx <= q.x + q.y * dx < x1 + y * dx) <==> (q.y == y && x0 <= q.x < x1)
    {
      if q.y < y {
        Bits.MulMono(dx, q.y + 1, y);
        assert (q.y + 1) * dx == q.y * dx + dx;
      } else if q.y > y {
        Bits.MulMono(dx, y + 1, q.y);
        assert (y + 1) * dx == y * dx + dx;
      }
    }

    // ------------------------------------------------------------ flood

    /** Every inside point. */
    ghost function AllPoints(): set<Point>
    {
      set x, y | 0 <= x < dx && 0 <= y < dy :: Point(x, y)
    }

    lemma AllPointsHas(p: Point)
      ensures p in AllPoints() <==> IsInside(p)
    {
      if IsInside(p) { assert Point(p.x, p.y) == p; }
    }

    /** The inside points whose cell in `snapshot` satisfies `pred`. */
    ghost function Passable(snapshot: seq<T>, pred: T -> bool): set<Point>
      requires |snapshot| == dx * dy
    {
      set p | p in AllPoints() && IsInside(p) && pred(At(snapshot, p))
    }

    /** The cell of `snapshot` at an inside point. */
    function At(snapshot: seq<T>, p: Point): T
      requires |snapshot| == dx * dy && IsInside(p)
    {
      snapshot[ToIndex(p).value]
    }

    lemma PassableHas(snapshot: seq<T>, pred: T -> bool, p: Point)
      requires |snapshot| == dx * dy && IsInside(p)
      ensures p in Passable(snapshot, pred) <==> pred(At(snapshot, p))
    {
      AllPointsHas(p);
    }

    /** `cs` holds `value` on `done` and the cells of `orig` everywhere else. */
    ghost predicate Painted(cs: seq<T>, orig: seq<T>, done: set<Point>, value: T)
      requires |cs| == dx * dy && |orig| == dx * dy
    {
      forall q :: IsInside(q) ==> cs[ToIndex(q).value] == if q in done then value else orig[ToIndex(q).value]
    }

    lemma PaintOne(cs: seq<T>, orig: seq<T>, done: set<Point>, value: T, p: Point)
      requires |cs| == dx * dy && |orig| == dx * dy && IsInside(p)
      requires Painted(cs, orig, done, value)
      ensures Painted(cs[ToIndex(p).value := value], orig, done + {p}, value)
    {
      forall q | IsInside(q) && q != p ensures ToIndex(q) != ToIndex(p) {
        if ToIndex(q) == ToIndex(p) { ToIndexInjective(q, p); }
      }
    }

    static lemma CardShrink(a: set<Point>, v: set<Point>, v': set<Point>)
      requires v <= v' <= a && v != v'
      ensures |a - v'| < |a - v|
    {
      var q :| q in v' && q !in v;
      var smaller := (a - v) - {q};
      assert a - v' <= smaller;
      assert smaller == (a - v') + (smaller - (a - v'));
    }

    /** What holds between two rounds of `flood`'s search. */
    ghost predicate FloodInv(cs: seq<T>, orig: seq<T>, pred: T -> bool, start: Point, value: T,
                             stack: seq<Point>, visited: set<Point>, done: set<Point>)
      requires |cs| == dx * dy && |orig| == dx * dy
    {
      var ok := Passable(orig, pred);
      Painted(cs, orig, done, value) &&
      (forall q :: q in stack ==> IsInside(q) && Reachable(ok, start, q) && (q in visited || q == start)) &&
      (forall q :: q in done ==> Reachable(ok, start, q) && (q in visited || q == start)) &&
      visited <= AllPoints() &&
      (forall q :: q in visited ==> (q in done || q in stack) && (q != start ==> q in ok)) &&
      (start in done || start in stack) &&
      Closed(ok, done, visited, start)
    }

    /**
     * The inner loop of `flood`: queues, in `STEPS` order, each neighbour of `p` that
     * is inside, not yet queued and whose current cell satisfies `pred`.
     */
    method PushNeighbours(p: Point, pred: T -> bool, stack: seq<Point>, visited: set<Point>)
      returns (stack': seq<Point>, visited': set<Point>)
      requires Valid()
      ensures Pushed(cells, p, pred, stack, visited, stack', visited')
      ensures stack' == stack + PushOrder(cells, p, pred, visited, 4)
      ensures forall q :: q in visited' <==> q in visited || q in PushOrder(cells, p, pred, visited, 4)
    {
      stack', visited' := stack, visited;
      var k := 0;
      while k < 4
        invariant 0 <= k <= 4
        invariant stack' == stack + PushOrder(cells, p, pred, visited, k)
        invariant forall q :: q in visited' <==> q in visited || q in PushOrder(cells, p, pred, visited, k)
      {
        var q := p.Add(STEPS[k]);
        if IsInside(q) && q !in visited' && pred(Get(q).value) {
          visited' := visited' + {q};
          stack' := stack' + [q];
        }
        k := k + 1;
      }
      PushedOfOrder(cells, p, pred, stack, visited, stack', visited');
    }

    /** The pushes in `STEPS` order are the pushes `Pushed` asks for. */
    lemma PushedOfOrder(cs: seq<T>, p: Point, pred: T -> bool, stack: seq<Point>, visited: set<Point>,
                        stack': seq<Point>, visited': set<Point>)
      requires |cs| == dx * dy
      requires stack' == stack + PushOrder(cs, p, pred, visited, 4)
      requires forall q :: q in visited' <==> q in visited || q in PushOrder(cs, p, pred, visited, 4)
      ensures Pushed(cs, p, pred, stack, visited, stack', visited')
    {
      var po := PushOrder(cs, p, pred, visited, 4);
      PushOrderFacts(cs, p, pred, visited, 4);
      assert stack'[..|stack|] == stack && stack'[|stack|..] == po;
      FirstIsNew(po, visited, visited');
    }

    /** When every point of `po` is new in `visited'`, so is its first point, if any. */
    lemma FirstIsNew(po: seq<Point>, visited: set<Point>, visited': set<Point>)
      requires forall q :: q in po ==> q in visited' && q !in visited
      ensures po != [] ==> po[0] in visited' && po[0] !in visited
    {
    }

    /** Every point of `PushOrder` is a new neighbour satisfying `pred`, and every such neighbour is pushed or visited. */
    lemma {:induction false} PushOrderFacts(cs: seq<T>, p: Point, pred: T -> bool, visited: set<Point>, k: nat)
      requires |cs| == dx * dy && k <= 4
      ensures forall q :: q in PushOrder(cs, p, pred, visited, k) ==>
                q !in visited && IsInside(q) && Adjacent(p, q) && pred(At(cs, q))
      ensures forall j :: 0 <= j < k && IsInside(p.Add(STEPS[j])) && pred(At(cs, p.Add(STEPS[j]))) ==>
                p.Add(STEPS[j]) in visited || p.Add(STEPS[j]) in PushOrder(cs, p, pred, visited, k)
    {
      if k > 0 {
        PushOrderFacts(cs, p, pred, visited, k - 1);
        StepIsAdjacent(p, k - 1);
      }
    }

    /**
     * The neighbours of `p` that the inner loop of `flood` pushes, trying the first `k`
     * steps of `STEPS` in order: those inside, not visited before and satisfying `pred`.
     */
    ghost function PushOrder(cs: seq<T>, p: Point, pred: T -> bool, visited: set<Point>, k: nat): seq<Point>
      requires |cs| == dx * dy && k <= 4
    {
      if k == 0 then []
      else
        var prev := PushOrder(cs, p, pred, visited, k - 1);
        var q := p.Add(STEPS[k - 1]);
        if IsInside(q) && q !in visited && q !in prev && pred(At(cs, q)) then prev + [q] else prev
    }

    /**
     * `stack'` and `visited'` are `stack` and `visited` with the neighbours of `p`
     * added that are inside and whose cell in `cs` satisfies `pred`, unless already visited.
     */
    ghost predicate Pushed(cs: seq<T>, p: Point, pred: T -> bool, stack: seq<Point>, visited: set<Point>,
                           stack': seq<Point>, visited': set<Point>)
      requires |cs| == dx * dy
    {
      visited <= visited' && |stack| <= |stack'| && stack'[..|stack|] == stack &&
      (visited' == visited ==> stack' == stack) &&
      (forall q :: q in stack'[|stack|..] <==> q in visited' && q !in visited) &&
      (forall q :: q in visited' && q !in visited ==> IsInside(q) && Adjacent(p, q) && pred(At(cs, q))) &&
      (forall k :: 0 <= k < 4 && IsInside(p.Add(STEPS[k])) && pred(At(cs, p.Add(STEPS[k]))) ==>
         p.Add(STEPS[k]) in visited')
    }

    /**
     * `flood`: when `start` is inside, writes `value` into `start` and into every cell
     * reachable from it through cells whose original value satisfies `pred`, and
     * into nothing else; when `start` is outside, changes nothing.
     */
    method Flood(start: Point, value: T, pred: T -> bool)
      requires Valid()
      modifies this
      ensures Valid()
      ensures !IsInside(start) ==> cells == old(cells)
      ensures IsInside(start) ==> forall q :: IsInside(q) ==>
                cells[ToIndex(q).value] ==
                  if Reachable(Passable(old(cells), pred), start, q) then value else old(cells)[ToIndex(q).value]
    {
      if !IsInside(start) {
        return;
      }
      ghost var orig := cells;
      ghost var done: set<Point> := {};
      var stack := [start];
      var visited: set<Point> := {};
      FloodStart(orig, pred, start, value);
      while |stack| > 0
        invariant Valid() && |orig| == dx * dy
        invariant FloodInv(cells, orig, pred, start, value, stack, visited, done)
        decreases |AllPoints() - visited|, |stack|
      {
        var p := stack[|stack| - 1];
        ghost var cells0, stack0, visited0 := cells, stack, visited;
        var rest := stack[..|stack| - 1];
        var _ := Set(p, value);
        stack, visited := PushNeighbours(p, pred, rest, visited);
        FloodStep(cells0, orig, pred, start, value, stack0, visited0, done, p, rest, cells, stack, visited);
        done := done + {p};
      }
      FloodEnd(cells, orig, pred, start, value, visited, done);
    }

    lemma FloodStart(orig: seq<T>, pred: T -> bool, start: Point, value: T)
      requires |orig| == dx * dy && IsInside(start)
      ensures FloodInv(orig, orig, pred, start, value, [start], {}, {})
    {
      assert IsWalk(Passable(orig, pred), [start]);
    }

    /** One round of `flood` keeps `FloodInv` and shrinks the measure. */
    lemma FloodStep(cs: seq<T>, orig: seq<T>, pred: T -> bool, start: Point, value: T,
                    stack: seq<Point>, visited: set<Point>, done: set<Point>,
                    p: Point, rest: seq<Point>, cs': seq<T>, stack': seq<Point>, visited': set<Point>)
      requires |cs| == dx * dy && |orig| == dx * dy
      requires FloodInv(cs, orig, pred, start, value, stack, visited, done)
      requires |stack| > 0 && p == stack[|stack| - 1] && rest == stack[..|stack| - 1]
      requires IsInside(p) && cs' == cs[ToIndex(p).value := value]
      requires |cs'| == dx * dy && Pushed(cs', p, pred, rest, visited, stack', visited')
      ensures FloodInv(cs', orig, pred, start, value, stack', visited', done + {p})
      ensures |AllPoints() - visited'| < |AllPoints() - visited| ||
              (visited' == visited && |stack'| < |stack|)
    {
      var n := |rest|;
      var ok := Passable(orig, pred);
      PopLast(stack);
      SplitAt(stack', n);
      PaintOne(cs, orig, done, value, p);
      assert forall x :: x in done + {p} ==> x in visited || x == start;
      forall q | q in visited' && q !in visited
        ensures IsInside(q) && Reachable(ok, start, q) && q in AllPoints() && (q != start ==> q in ok)
      {
        NewlyVisited(orig, pred, start, value, cs', done + {p}, p, visited, q);
      }
      forall q | Adjacent(p, q) && q in ok ensures q in visited' || q == start {
        NeighbourQueued(orig, pred, start, value, cs', done + {p}, p, visited, visited', q);
      }
      ClosedAdd(ok, done, visited, visited', start, p);
      if visited' != visited {
        CardShrink(AllPoints(), visited, visited');
      }
    }

    /** A cell queued in a round from `p` is reachable, and passable unless it is the start. */
    lemma NewlyVisited(orig: seq<T>, pred: T -> bool, start: Point, value: T, cs': seq<T>,
                       done': set<Point>, p: Point, visited: set<Point>, q: Point)
      requires |orig| == dx * dy && |cs'| == dx * dy
      requires Painted(cs', orig, done', value)
      requires forall x :: x in done' ==> x in visited || x == start
      requires Reachable(Passable(orig, pred), start, p)
      requires q !in visited && IsInside(q) && Adjacent(p, q) && pred(At(cs', q))
      ensures q in AllPoints() && Reachable(Passable(orig, pred), start, q)
      ensures q != start ==> q in Passable(orig, pred)
    {
      AllPointsHas(q);
      PassableHas(orig, pred, q);
      if q != start {
        assert q !in done';
        ReachableStep(Passable(orig, pred), start, p, q);
      } else {
        assert IsWalk(Passable(orig, pred), [q]);
      }
    }

    /** After a round from `p`, every passable neighbour of `p` is queued or is the start. */
    lemma NeighbourQueued(orig: seq<T>, pred: T -> bool, start: Point, value: T, cs': seq<T>,
                          done': set<Point>, p: Point, visited: set<Point>, visited': set<Point>, q: Point)
      requires |orig| == dx * dy && |cs'| == dx * dy
      requires Painted(cs', orig, done', value)
      requires forall x :: x in done' ==> x in visited || x == start
      requires visited <= visited'
      requires forall k :: 0 <= k < 4 && IsInside(p.Add(STEPS[k])) && pred(At(cs', p.Add(STEPS[k]))) ==>
                 p.Add(STEPS[k]) in visited'
      requires Adjacent(p, q) && q in Passable(orig, pred)
      ensures q in visited' || q == start
    {
      var j := AdjacentStep(p, q);
      AllPointsHas(q);
      PassableHas(orig, pred, q);
    }

    /** When the stack runs dry, the painted cells are exactly the reachable ones. */
    lemma FloodEnd(cs: seq<T>, orig: seq<T>, pred: T -> bool, start: Point, value: T,
                   visited: set<Point>, done: set<Point>)
      requires |cs| == dx * dy && |orig| == dx * dy
      requires FloodInv(cs, orig, pred, start, value, [], visited, done)
      ensures forall q :: IsInside(q) ==>
                cs[ToIndex(q).value] == if Reachable(Passable(orig, pred), start, q) then value else orig[ToIndex(q).value]
    {
      var ok := Passable(orig, pred);
      forall q | IsInside(q) ensures q in done <==> Reachable(ok, start, q) {
        if Reachable(ok, start, q) {
          var ps :| IsWalk(ok, ps) && ps[0] == start && ps[|ps| - 1] == q;
          assert forall p, q :: p in done && Adjacent(p, q) && q in ok ==> q in done by {
            assert Closed(ok, done, visited, start);
          }
          ClosedHoldsReachable(ok, done, start, ps);
        }
      }
    }
  }

  /** A cell of `ok` that has been queued, or is the start. */
  ghost predicate Handled(ok: set<Point>, visited: set<Point>, start: Point, q: Point)
  {
    q in ok ==> q in visited || q == start
  }

  /** Every step from `done` into `ok` lands in `visited` or on `start`. */
  ghost predicate Closed(ok: set<Point>, done: set<Point>, visited: set<Point>, start: Point)
  {
    forall p, q :: p in done && Adjacent(p, q) && q in ok ==> q in visited || q == start
  }

  lemma ClosedAdd(ok: set<Point>, done: set<Point>, visited: set<Point>, visited': set<Point>, start: Point, p: Point)
    requires Closed(ok, done, visited, start) && visited <= visited'
    requires forall q :: Adjacent(p, q) && q in ok ==> q in visited' || q == start
    ensures Closed(ok, done + {p}, visited', start)
  {
  }

  lemma PopLast<X>(s: seq<X>)
    requires |s| > 0
    ensures s == s[..|s| - 1] + [s[|s| - 1]]
  {
  }

  lemma SplitAt<X>(s: seq<X>, n: nat)
    requires n <= |s|
    ensures s == s[..n] + s[n..]
  {
  }

  /** Every neighbour is one of the four steps away. */
  lemma AdjacentStep(p: Point, q: Point) returns (j: nat)
    requires Adjacent(p, q)
    ensures j < 4 && q == p.Add(STEPS[j])
  {
    var d := q.Sub(p);
    j :| 0 <= j < 4 && STEPS[j] == d;
  }

  // ---------------------------------------------------------------- parsing

  /** The lines laid end to end. */
  function Flatten(ls: seq<string>): string
  {
    if ls == [] then [] else ls[0] + Flatten(ls[1..])
  }

  /** The index of the first non-empty line, or `|ls|` when there is none. */
  function FirstNonEmpty(ls: seq<string>): (k: nat)
    ensures k <= |ls| && (k < |ls| ==> ls[k] != [])
    ensures forall i :: 0 <= i < k ==> ls[i] == []
  {
    if ls == [] then 0 else if ls[0] != [] then 0 else 1 + FirstNonEmpty(ls[1..])
  }

  /** All lines from the first non-empty one on have the same length. */
  predicate Rectangular(ls: seq<string>)
  {
    var k := FirstNonEmpty(ls);
    forall i :: k <= i < |ls| ==> |ls[i]| == |ls[k]|
  }

  lemma {:induction false} FlattenLength(ls: seq<string>, w: nat)
    requires forall i :: 0 <= i < |ls| ==> |ls[i]| == w
    ensures |Flatten(ls)| == w * |ls|
  {
    if ls != [] {
      FlattenLength(ls[1..], w);
      assert w * |ls| == w + w * (|ls| - 1);
    }
  }

  lemma {:induction false} FlattenAppend(ls: seq<string>, line: string)
    ensures Flatten(ls + [line]) == Flatten(ls) + line
  {
    if ls == [] {
      assert [line][1..] == [];
    } else {
      assert (ls + [line])[1..] == ls[1..] + [line];
      FlattenAppend(ls[1..], line);
    }
  }

  /** Row `y` of a flattening of equal-length lines is line `y`. */
  lemma {:induction false} FlattenRow(ls: seq<string>, w: nat, y: nat)
    requires forall i :: 0 <= i < |ls| ==> |ls[i]| == w
    requires y < |ls|
    ensures |Flatten(ls)| == w * |ls| && y * w + w <= |Flatten(ls)|
    ensures Flatten(ls)[y * w .. y * w + w] == ls[y]
  {
    FlattenLength(ls, w);
    FlattenLength(ls[1..], w);
    if y > 0 {
      FlattenRow(ls[1..], w, y - 1);
      assert y * w == w + (y - 1) * w;
      assert Flatten(ls) == ls[0] + Flatten(ls[1..]);
      assert Flatten(ls)[y * w .. y * w + w] == Flatten(ls[1..])[(y - 1) * w .. (y - 1) * w + w];
    } else {
      assert Flatten(ls)[..w] == ls[0];
    }
    assert w * |ls| == w + w * (|ls| - 1);
    Bits.MulMono(w, y + 1, |ls|);
  }

  /** Cell `(x, y)` of a flattening of equal-length lines is character `x` of line `y`. */
  lemma FlattenCell(ls: seq<string>, w: nat, x: nat, y: nat)
    requires forall i :: 0 <= i < |ls| ==> |ls[i]| == w
    requires y < |ls| && x < w
    ensures x + y * w < |Flatten(ls)| && Flatten(ls)[x + y * w] == ls[y][x]
  {
    FlattenRow(ls, w, y);
    var f := Flatten(ls);
    assert f[x + y * w] == f[y * w .. y * w + w][x];
  }

  /**
   * `Grid::parse`: each line of the input is a row and each character a cell.
   * Leading empty lines are skipped; any later line whose length differs from the
   * one before it is an error. An input without any character besides line breaks
   * divides by zero in the source, so it is excluded.
   */
  method Parse(input: string) returns (r: Result<Grid<char>>)
    requires exists i :: 0 <= i < |Lines(input)| && Lines(input)[i] != []
    ensures r.Ok? <==> Rectangular(Lines(input))
    ensures r.Ok? ==> fresh(r.value) && r.value.Valid() && GridOfLines(r.value, Lines(input))
  {
    r := FromLines(Lines(input));
  }

  /** `g` holds the lines from the first non-empty one on, line `y` as row `y`. */
  ghost predicate GridOfLines(g: Grid<char>, ls: seq<string>)
    reads g
    requires g.Valid()
  {
    var k := FirstNonEmpty(ls);
    k < |ls| && Rectangular(ls) && g.dx == |ls[k]| && g.dy == |ls| - k && g.cells == Flatten(ls[k..]) &&
    forall p :: g.IsInside(p) ==> g.Get(p) == Some(ls[k + p.y][p.x])
  }

  /**
   * The fold of `Grid::parse` over the lines: the width of the last line and the
   * characters of all lines, or an error at the first line whose length differs
   * from the line before it, once some character has been seen.
   */
  method FoldLines(ls: seq<string>) returns (r: Result<(nat, string)>)
    ensures r.Ok? <==> Rectangular(ls)
    ensures r.Ok? ==> var k := FirstNonEmpty(ls);
              r.value == if k < |ls| then (|ls[k]|, Flatten(ls[k..])) else (0, [])
  {
    var k := FirstNonEmpty(ls);
    var dx := 0;
    var v: string := [];
    var i := 0;
    while i < |ls|
      invariant 0 <= i <= |ls|
      invariant i <= k ==> v == [] && dx == 0
      invariant i > k ==> dx == |ls[k]| && v == Flatten(ls[k..i])
      invariant forall j :: k <= j < i ==> |ls[j]| == |ls[k]|
    {
      var line := ls[i];
      if v != [] && dx != |line| {
        assert i > k && |ls[i]| != |ls[k]|;
        return Err("invalid line");
      }
      if i > k {
        assert ls[k..i + 1] == ls[k..i] + [line];
        FlattenAppend(ls[k..i], line);
      } else if i == k {
        assert ls[k..i + 1] == [line];
        assert Flatten([line]) == line + Flatten([]);
      }
      v := v + line;
      dx := |line|;
      i := i + 1;
    }
    if k < |ls| {
      assert ls[k..i] == ls[k..];
    }
    r := Ok((dx, v));
  }

  /** `Grid::parse` on the lines of its input. */
  method FromLines(ls: seq<string>) returns (r: Result<Grid<char>>)
    requires exists i :: 0 <= i < |ls| && ls[i] != []
    ensures r.Ok? <==> Rectangular(ls)
    ensures r.Ok? ==> fresh(r.value) && r.value.Valid() && GridOfLines(r.value, ls)
  {
    var k := FirstNonEmpty(ls);
    ghost var i0 :| 0 <= i0 < |ls| && ls[i0] != [];
    assert k <= i0;
    var folded := FoldLines(ls);
    if folded.Err? {
      return Err(folded.error);
    }
    var (dx, v) := folded.value;
    var rows := ls[k..];
    assert forall j :: 0 <= j < |rows| ==> |rows[j]| == dx by {
      forall j | 0 <= j < |rows| ensures |rows[j]| == dx { assert rows[j] == ls[k + j]; }
    }
    FlattenLength(rows, dx);
    var dy := |v| / dx;
    Bits.DivUnique(|v|, dx, |rows|, 0);
    var g := new Grid<char>.Make(dx, dy, v);
    forall p | g.IsInside(p) ensures g.Get(p) == Some(ls[k + p.y][p.x]) {
      FlattenCell(rows, dx, p.x, p.y);
      assert rows[p.y] == ls[k + p.y];
    }
    r := Ok(g);
  }

  lemma ReachableStep(ok: set<Point>, s: Point, p: Point, q: Point)
    requires Reachable(ok, s, p) && Adjacent(p, q) && q in ok
    ensures Reachable(ok, s, q)
  {
    var ps :| IsWalk(ok, ps) && ps[0] == s && ps[|ps| - 1] == p;
    WalkExtend(ok, ps, q);
    var ps' := ps + [q];
    assert IsWalk(ok, ps') && ps'[0] == s && ps'[|ps'| - 1] == q;
  }

  function Min(a: int, b: int): int { if a < b then a else b }
  function Max(a: int, b: int): int { if a < b then b else a }

  /** Position of the first `what` in `s`. */
  function FirstIndex<T(==)>(s: seq<T>, what: T): (r: Option<nat>)
    ensures r.None? <==> what !in s
    ensures r.Some? ==> r.value < |s| && s[r.value] == what && forall k :: 0 <= k < r.value ==> s[k] != what
  {
    if |s| == 0 then None
    else if s[0] == what then Some(0)
    else match FirstIndex(s[1..], what)
      case None => None
      case Some(i) => Some(i + 1)
  }
}

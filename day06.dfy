/**
 * Day 6: a guard walks a grid, stepping ahead until a wall `'#'` is in front and then
 * turning right. The walk ends when the guard would step off the grid, or in a loop
 * once the guard stands on a cell, facing a direction, for the second time. Part two
 * counts the cells where one extra obstacle traps the guard in a loop.
 */
module Day06 {
  import opened Wrappers
  import opened Grids

  const WALL: char := '#'
  const GUARD: char := '^'

  /** A guard's state: where it stands and where it faces. */
  type State = (Point, Dir)

  /** What one step of the walk does from a state. */
  datatype Move =
    | Exit            // the cell ahead is off the grid
    | Panic           // after a turn the cell ahead is off the grid: `unwrap` on `None`
    | Spin            // all four sides are blocked: the turning loop never ends
    | Go(next: State) // the guard steps on, facing the direction it turned to

  /** How a walk ends. */
  datatype Outcome = Exited | Looped | Panicked

  // ---------------------------------------------------------------- one step

  /** `q` holds the extra obstacle or a wall. */
  predicate Blocked(grid: Grid<char>, obs: Option<Point>, q: Point)
    reads grid
    requires grid.Valid()
  {
    Some(q) == obs || grid.Get(q) == Some(WALL)
  }

  /**
   * The turning loop from `p` facing `d`, after `k` right turns: a free cell ahead is
   * stepped onto; a blocked one makes the guard turn right, forever after the fourth.
   */
  function Turn(grid: Grid<char>, obs: Option<Point>, p: Point, d: Dir, k: nat): Move
    reads grid
    requires grid.Valid() && k < 4
    decreases 4 - k
  {
    var q := p.Add(d.Step(1));
    if Some(q) != obs && grid.Get(q).None? then Panic
    else if Blocked(grid, obs, q) then
      if k == 3 then Spin else Turn(grid, obs, p, d.Right(), k + 1)
    else Go((q, d))
  }

  /** One step of the walk from `s`. */
  function Next(grid: Grid<char>, obs: Option<Point>, s: State): (m: Move)
    reads grid
    requires grid.Valid()
    ensures m.Go? ==> grid.IsInside(m.next.0) && !Blocked(grid, obs, m.next.0)
    ensures m.Go? ==> m.next.0.Add(m.next.1.Opposite().Step(1)) == s.0
  {
    var q := s.0.Add(s.1.Step(1));
    if !grid.IsInside(q) then Exit else TurnGoes(grid, obs, s.0, s.1, 0); Turn(grid, obs, s.0, s.1, 0)
  }

  /** A step taken by `Turn` lands on a free inside cell next to `p`, facing away from `p`. */
  lemma {:induction false} TurnGoes(grid: Grid<char>, obs: Option<Point>, p: Point, d: Dir, k: nat)
    requires grid.Valid() && k < 4
    ensures var m := Turn(grid, obs, p, d, k);
      m.Go? ==> grid.IsInside(m.next.0) && !Blocked(grid, obs, m.next.0) && m.next.0.Add(m.next.1.Opposite().Step(1)) == p
    decreases 4 - k
  {
    var q := p.Add(d.Step(1));
    if !(Some(q) != obs && grid.Get(q).None?) && Blocked(grid, obs, q) && k < 3 {
      TurnGoes(grid, obs, p, d.Right(), k + 1);
    }
  }

  // ---------------------------------------------------------------- walks

  /** `tr` is a walk: every state is the step taken from the one before. */
  ghost predicate IsPath(grid: Grid<char>, obs: Option<Point>, tr: seq<State>)
    reads grid
    requires grid.Valid()
    decreases |tr|
  {
    |tr| > 0 &&
    (|tr| == 1 || (IsPath(grid, obs, tr[..|tr| - 1]) && Next(grid, obs, tr[|tr| - 2]) == Go(tr[|tr| - 1])))
  }

  /** Each state of a walk is the step taken from the state before it. */
  lemma {:induction false} PathLink(grid: Grid<char>, obs: Option<Point>, tr: seq<State>, i: nat)
    requires grid.Valid() && IsPath(grid, obs, tr) && i < |tr| - 1
    ensures Next(grid, obs, tr[i]) == Go(tr[i + 1])
    decreases |tr|
  {
    var n := |tr| - 1;
    if i < n - 1 {
      PathLink(grid, obs, tr[..n], i);
      assert tr[..n][i] == tr[i] && tr[..n][i + 1] == tr[i + 1];
    }
  }

  /** A walk extended by the step from its last state is a walk. */
  lemma PathSnoc(grid: Grid<char>, obs: Option<Point>, tr: seq<State>, s: State)
    requires grid.Valid() && IsPath(grid, obs, tr) && Next(grid, obs, tr[|tr| - 1]) == Go(s)
    ensures IsPath(grid, obs, tr + [s]) && (tr + [s])[0] == tr[0]
  {
    assert (tr + [s])[..|tr|] == tr;
  }

  /** A walk of two states or more stripped of its last state is a walk ending where that one was stepped from. */
  lemma PathFront(grid: Grid<char>, obs: Option<Point>, tr: seq<State>, s: State)
    requires grid.Valid() && IsPath(grid, obs, tr + [s]) && |tr| > 0
    ensures IsPath(grid, obs, tr) && (tr + [s])[0] == tr[0] && Next(grid, obs, tr[|tr| - 1]) == Go(s)
  {
    assert (tr + [s])[..|tr|] == tr;
  }

  /** The walk from `s0` leaves the grid. */
  ghost predicate Exits(grid: Grid<char>, obs: Option<Point>, s0: State)
    reads grid
    requires grid.Valid()
  {
    exists tr :: IsPath(grid, obs, tr) && tr[0] == s0 && Next(grid, obs, tr[|tr| - 1]) == Exit
  }

  /** The walk from `s0` comes back to a state it has been in. */
  ghost predicate Loops(grid: Grid<char>, obs: Option<Point>, s0: State)
    reads grid
    requires grid.Valid()
  {
    exists tr :: IsPath(grid, obs, tr) && tr[0] == s0 &&
      Next(grid, obs, tr[|tr| - 1]).Go? && Next(grid, obs, tr[|tr| - 1]).next in tr
  }

  /** The walk from `s0` reaches a turn that looks off the grid. */
  ghost predicate Panics(grid: Grid<char>, obs: Option<Point>, s0: State)
    reads grid
    requires grid.Valid()
  {
    exists tr :: IsPath(grid, obs, tr) && tr[0] == s0 && Next(grid, obs, tr[|tr| - 1]) == Panic
  }

  /** Two walks from the same state agree as far as both go. */
  lemma {:induction false} PathsAgree(grid: Grid<char>, obs: Option<Point>, t1: seq<State>, t2: seq<State>, i: nat)
    requires grid.Valid() && IsPath(grid, obs, t1) && IsPath(grid, obs, t2) && t1[0] == t2[0]
    requires i < |t1| && i < |t2|
    ensures t1[i] == t2[i]
  {
    if i > 0 {
      PathsAgree(grid, obs, t1, t2, i - 1);
      PathLink(grid, obs, t1, i - 1);
      PathLink(grid, obs, t2, i - 1);
    }
  }

  /** A walk from the start of a loop never leaves the states of the loop. */
  lemma {:induction false} StaysInLoop(grid: Grid<char>, obs: Option<Point>, t1: seq<State>, t2: seq<State>, i: nat)
    requires grid.Valid() && IsPath(grid, obs, t1) && IsPath(grid, obs, t2) && t1[0] == t2[0]
    requires Next(grid, obs, t2[|t2| - 1]).Go? && Next(grid, obs, t2[|t2| - 1]).next in t2
    requires i < |t1|
    ensures t1[i] in t2
  {
    if i > 0 {
      StaysInLoop(grid, obs, t1, t2, i - 1);
      var k :| 0 <= k < |t2| && t2[k] == t1[i - 1];
      PathLink(grid, obs, t1, i - 1);
      if k < |t2| - 1 {
        PathLink(grid, obs, t2, k);
      }
    }
  }

  /** Every walk from the start of a loop takes a step from its last state. */
  lemma LoopGoesOn(grid: Grid<char>, obs: Option<Point>, t1: seq<State>, t2: seq<State>)
    requires grid.Valid() && IsPath(grid, obs, t1) && IsPath(grid, obs, t2) && t1[0] == t2[0]
    requires Next(grid, obs, t2[|t2| - 1]).Go? && Next(grid, obs, t2[|t2| - 1]).next in t2
    ensures Next(grid, obs, t1[|t1| - 1]).Go?
  {
    StaysInLoop(grid, obs, t1, t2, |t1| - 1);
    var k :| 0 <= k < |t2| && t2[k] == t1[|t1| - 1];
    if k < |t2| - 1 {
      PathLink(grid, obs, t2, k);
    }
  }

  /** A walk that loops neither leaves the grid nor panics. */
  lemma LoopsExclusive(grid: Grid<char>, obs: Option<Point>, s0: State, t2: seq<State>)
    requires grid.Valid() && IsPath(grid, obs, t2) && t2[0] == s0
    requires Next(grid, obs, t2[|t2| - 1]).Go? && Next(grid, obs, t2[|t2| - 1]).next in t2
    ensures Loops(grid, obs, s0) && !Exits(grid, obs, s0) && !Panics(grid, obs, s0)
  {
    forall t1 | IsPath(grid, obs, t1) && t1[0] == s0
      ensures Next(grid, obs, t1[|t1| - 1]).Go?
    {
      LoopGoesOn(grid, obs, t1, t2);
    }
  }

  // ---------------------------------------------------------------- visit masks

  /** The mask bit of a direction. */
  function Bit(d: Dir): bv8
  {
    match d
    case North => 1
    case South => 2
    case East => 4
    case West => 8
  }

  /** The mask bit of a direction is `1 << dir.index()`, one bit of the low four. */
  lemma BitIsShift(d: Dir)
    ensures Bit(d) == (1 as bv8) << d.Index()
  {
  }

  /** The mask `b` records direction `d`. */
  predicate Marked(b: bv8, d: Dir)
  {
    b & Bit(d) != 0
  }

  /** The number of directions a mask below 16 records. */
  function Pop(b: bv8): nat
  {
    (if b & 1 != 0 then 1 else 0) + (if b & 2 != 0 then 1 else 0) +
    (if b & 4 != 0 then 1 else 0) + (if b & 8 != 0 then 1 else 0)
  }

  /** Or-ing in a direction records it and keeps every other; a new one adds one to the count. */
  lemma OrBit(b: bv8, d: Dir)
    ensures b < 16 ==> b | Bit(d) < 16
    ensures b | Bit(d) != 0 && (Marked(b, d) ==> b != 0)
    ensures !Marked(b, d) ==> Pop(b | Bit(d)) == Pop(b) + 1
    ensures forall e :: Marked(b | Bit(d), e) <==> Marked(b, e) || e == d
  {
    forall e ensures Marked(b | Bit(d), e) <==> Marked(b, e) || e == d {
      match e
      case North =>
      case South =>
      case East =>
      case West =>
    }
  }

  /** A mask below 16 is zero exactly when it records no direction. */
  lemma ZeroUnmarked(b: bv8, d: Dir)
    requires b < 16
    ensures b == 0 ==> !Marked(b, d)
    ensures b != 0 ==> Marked(b, North) || Marked(b, South) || Marked(b, East) || Marked(b, West)
  {
  }

  /** The directions still unrecorded over all masks: the walk's termination measure. */
  function Unset(cs: seq<bv8>): nat
  {
    if cs == [] then 0 else Unset(cs[..|cs| - 1]) + (4 - Pop(cs[|cs| - 1]) as int) as nat
  }

  /** Writing mask `c` at `i` changes the measure by what the old and new masks contribute. */
  lemma {:induction false} WriteUnset(cs: seq<bv8>, i: nat, c: bv8)
    requires i < |cs|
    ensures Unset(cs[i := c]) + Pop(c) == Unset(cs) + Pop(cs[i])
    decreases |cs|
  {
    var n := |cs| - 1;
    var cs' := cs[i := c];
    assert cs'[..n] == if i < n then cs[..n][i := c] else cs[..n];
    if i < n {
      WriteUnset(cs[..n], i, c);
    }
  }

  /** The points a walk has stood on. */
  ghost function Points(tr: seq<State>): set<Point>
  {
    set s | s in tr :: s.0
  }

  /** Standing on `s` adds its point, which is new exactly when it was not stood on before. */
  lemma PointsSnoc(tr: seq<State>, s: State)
    ensures Points(tr + [s]) == Points(tr) + {s.0}
    ensures |Points(tr + [s])| == |Points(tr)| + if s.0 in Points(tr) then 0 else 1
  {
    assert Points(tr + [s]) == Points(tr) + {s.0};
  }

  /**
   * The masks `walk` has written after the states of `tr` on a grid the size of `vis`:
   * each state or-s the bit of its direction into the mask of its cell.
   */
  function Masks(vis: Grid<char>, tr: seq<State>): (cs: seq<bv8>)
    requires 0 <= vis.dx && 0 <= vis.dy
    ensures |cs| == vis.dx * vis.dy
    decreases |tr|
  {
    if tr == [] then seq(vis.dx * vis.dy, _ => 0)
    else
      var cs := Masks(vis, tr[..|tr| - 1]);
      var s := tr[|tr| - 1];
      match vis.ToIndex(s.0)
      case None => cs
      case Some(i) => cs[i := cs[i] | Bit(s.1)]
  }

  /** The masks after one more state. */
  lemma MasksSnoc(vis: Grid<char>, tr: seq<State>, p: Point, d: Dir)
    requires 0 <= vis.dx && 0 <= vis.dy && vis.IsInside(p)
    ensures var cs, i := Masks(vis, tr), vis.ToIndex(p).value; Masks(vis, tr + [(p, d)]) == cs[i := cs[i] | Bit(d)]
  {
    assert (tr + [(p, d)])[..|tr|] == tr;
  }

  /** The mask of an inside point is below 16 and has bit `e` exactly when `(q, e)` is a state of `tr`. */
  lemma {:induction false} MaskRecords(vis: Grid<char>, tr: seq<State>, q: Point, e: Dir)
    requires 0 <= vis.dx && 0 <= vis.dy && vis.IsInside(q)
    ensures Masks(vis, tr)[vis.ToIndex(q).value] < 16
    ensures Marked(Masks(vis, tr)[vis.ToIndex(q).value], e) <==> (q, e) in tr
    decreases |tr|
  {
    if tr != [] {
      var n := |tr| - 1;
      var t, s := tr[..n], tr[n];
      assert tr == t + [s];
      MaskRecords(vis, t, q, e);
      var cs := Masks(vis, t);
      var j := vis.ToIndex(q).value;
      match vis.ToIndex(s.0)
      case None =>
        assert s.0 != q;
      case Some(i) =>
        OrBit(cs[i], s.1);
        if i == j {
          vis.ToIndexInjective(s.0, q);
        } else {
          assert s.0 != q;
        }
    }
  }

  /** The mask of an inside point is zero exactly when the walk has not stood on it. */
  lemma MaskZero(vis: Grid<char>, tr: seq<State>, p: Point)
    requires 0 <= vis.dx && 0 <= vis.dy && vis.IsInside(p)
    ensures Masks(vis, tr)[vis.ToIndex(p).value] == 0 <==> p !in Points(tr)
  {
    var b := Masks(vis, tr)[vis.ToIndex(p).value];
    MaskRecords(vis, tr, p, North);
    ZeroUnmarked(b, North);
    if b != 0 {
      var d :| d in {North, South, East, West} && Marked(b, d);
      MaskRecords(vis, tr, p, d);
      assert (p, d) in tr;
    } else {
      forall s | s in tr ensures s.0 != p {
        if s.0 == p {
          MaskRecords(vis, tr, p, s.1);
          ZeroUnmarked(b, s.1);
        }
      }
    }
  }

  // ---------------------------------------------------------------- the walk in place

  /** Quarter turns from `a`, clockwise, to `b`. */
  function TurnsTo(a: Dir, b: Dir): (n: nat)
    ensures n < 4
  {
    (Clock(b) - Clock(a)) % 4
  }

  /** No turns are needed exactly when facing `b`; otherwise a right turn saves one. */
  lemma TurnsToRight(a: Dir, b: Dir)
    ensures TurnsTo(a, b) == 0 <==> a == b
    ensures a != b ==> TurnsTo(a.Right(), b) == TurnsTo(a, b) - 1
  {
  }

  /** The clockwise position of a direction, from North. */
  function Clock(d: Dir): int
  {
    match d
    case North => 0
    case East => 1
    case South => 2
    case West => 3
  }

  /** A state the walk may start in: inside, free, and with some free side. */
  predicate CanStart(grid: Grid<char>, obs: Option<Point>, p: Point)
    reads grid
    requires grid.Valid()
  {
    grid.IsInside(p) && !Blocked(grid, obs, p) && exists d: Dir :: !Blocked(grid, obs, p.Add(d.Step(1)))
  }

  /**
   * One step of `walk` from `p` facing `d`: `Exit` when the cell ahead is off the grid;
   * otherwise the turning loop, which turns right while the cell ahead is blocked and
   * ends in `Panic` where the source would `unwrap` a `None`.
   */
  method Advance(grid: Grid<char>, obs: Option<Point>, p: Point, d: Dir) returns (m: Move)
    requires grid.Valid() && CanStart(grid, obs, p)
    ensures m == Next(grid, obs, (p, d)) && !m.Spin?
  {
    var q := p.Add(d.Step(1));
    if !grid.IsInside(q) {
      return Exit;
    }
    var d' := d;
    ghost var fd: Dir :| !Blocked(grid, obs, p.Add(fd.Step(1)));
    var k := 0;
    while Blocked(grid, obs, q)
      invariant q == p.Add(d'.Step(1)) && k < 4 && k + TurnsTo(d', fd) <= 3
      invariant Some(q) == obs || grid.Get(q).Some?
      invariant Next(grid, obs, (p, d)) == Turn(grid, obs, p, d', k)
      decreases TurnsTo(d', fd)
    {
      TurnsToRight(d', fd);
      d' := d'.Right();
      k := k + 1;
      q := p.Add(d'.Step(1));
      if Some(q) != obs && grid.Get(q).None? {
        return Panic;
      }
    }
    m := Go((q, d'));
  }

  /** The walk `tr` ends as `out` says: its last state steps off the grid, back into `tr`, or into a panic. */
  ghost predicate Ends(grid: Grid<char>, obs: Option<Point>, tr: seq<State>, out: Outcome)
    reads grid
    requires grid.Valid() && |tr| > 0
  {
    var m := Next(grid, obs, tr[|tr| - 1]);
    match out
    case Exited => m == Exit
    case Looped => m.Go? && m.next in tr
    case Panicked => m == Panic
  }

  /**
   * `walk`: records each state in the mask of its cell and counts the cells entered for
   * the first time, until the guard leaves the grid, repeats a state, or panics. The
   * ghost `trail` is the walk taken, which is the only one from `(start, dir)`.
   */
  method Walk(grid: Grid<char>, start: Point, dir: Dir, obs: Option<Point>)
    returns (vis: Grid<bv8>, count: nat, out: Outcome, ghost trail: seq<State>)
    requires grid.Valid() && CanStart(grid, obs, start)
    ensures fresh(vis) && vis.Valid() && vis.dx == grid.dx && vis.dy == grid.dy
    ensures IsPath(grid, obs, trail) && trail[0] == (start, dir)
    ensures vis.cells == Masks(grid, trail) && count == |Points(trail)|
    ensures Ends(grid, obs, trail, out) && count == NonZero(vis.cells)
  {
    var marks: seq<bv8> := seq(grid.dx * grid.dy, _ => 0);
    count := 0;
    var p, d := start, dir;
    trail := [];
    while true
      invariant CanStart(grid, obs, p)
      invariant IsPath(grid, obs, trail + [(p, d)]) && (trail + [(p, d)])[0] == (start, dir)
      invariant marks == Masks(grid, trail) && count == |Points(trail)|
      decreases Unset(marks)
    {
      var again;
      marks, count, again := Visit(grid, marks, count, p, d, trail);
      if again {
        LoopFound(grid, obs, trail, p, d);
        WalkCount(grid, obs, trail);
        out := Looped;
        vis := new Grid<bv8>.Make(grid.dx, grid.dy, marks);
        return;
      }
      trail := trail + [(p, d)];
      var m := Advance(grid, obs, p, d);
      assert trail[|trail| - 1] == (p, d);
      if m == Exit || m == Panic {
        WalkCount(grid, obs, trail);
        out := if m == Exit then Exited else Panicked;
        vis := new Grid<bv8>.Make(grid.dx, grid.dy, marks);
        return;
      }
      Stepped(grid, obs, trail, p, d, m.next.0, m.next.1);
      p, d := m.next.0, m.next.1;
    }
  }

  /**
   * The first half of the body of `walk`'s loop, on the mask of `p` facing `d` after the
   * walk `trail`: counts the cell if its mask is zero, and reports a state already recorded
   * or records it.
   */
  method Visit(grid: Grid<char>, marks: seq<bv8>, count: nat, p: Point, d: Dir, ghost trail: seq<State>)
    returns (marks': seq<bv8>, count': nat, again: bool)
    requires 0 <= grid.dx && 0 <= grid.dy && grid.IsInside(p)
    requires marks == Masks(grid, trail) && count == |Points(trail)|
    ensures again <==> (p, d) in trail
    ensures again ==> marks' == marks && count' == count
    ensures !again ==> marks' == Masks(grid, trail + [(p, d)]) && count' == |Points(trail + [(p, d)])|
    ensures !again ==> Unset(marks') < Unset(marks)
  {
    var i := grid.ToIndex(p).value;
    var cell := marks[i];
    count' := count + if cell == 0 then 1 else 0;
    if cell & Bit(d) != 0 {
      VisitAgain(grid, trail, marks, i, p, d);
      return marks, count', true;
    }
    VisitNew(grid, trail, marks, i, p, d);
    marks' := marks[i := cell | Bit(d)];
    again := false;
  }

  /** Standing again on a recorded state: `(p, d)` is in `tr`, and the mask of `p` is not zero. */
  lemma VisitAgain(grid: Grid<char>, tr: seq<State>, cs: seq<bv8>, i: nat, p: Point, d: Dir)
    requires 0 <= grid.dx && 0 <= grid.dy && grid.IsInside(p)
    requires cs == Masks(grid, tr) && grid.ToIndex(p) == Some(i) && Marked(cs[i], d)
    ensures (p, d) in tr && cs[i] != 0
  {
    MaskRecords(grid, tr, p, d);
  }

  /**
   * Standing on a new state: recording its bit gives the masks of the longer walk, the
   * points grow by `p` exactly when its mask was zero, and fewer directions are left unset.
   */
  lemma VisitNew(grid: Grid<char>, tr: seq<State>, cs: seq<bv8>, i: nat, p: Point, d: Dir)
    requires 0 <= grid.dx && 0 <= grid.dy && grid.IsInside(p)
    requires cs == Masks(grid, tr) && grid.ToIndex(p) == Some(i) && !Marked(cs[i], d)
    ensures (p, d) !in tr && Masks(grid, tr + [(p, d)]) == cs[i := cs[i] | Bit(d)]
    ensures |Points(tr + [(p, d)])| == |Points(tr)| + (if cs[i] == 0 then 1 else 0)
    ensures Unset(cs[i := cs[i] | Bit(d)]) < Unset(cs)
  {
    MaskZero(grid, tr, p);
    MaskRecords(grid, tr, p, d);
    OrBit(cs[i], d);
    WriteUnset(cs, i, cs[i] | Bit(d));
    PointsSnoc(tr, (p, d));
    MasksSnoc(grid, tr, p, d);
  }

  /** A state already recorded closes a loop. */
  lemma LoopFound(grid: Grid<char>, obs: Option<Point>, trail: seq<State>, p: Point, d: Dir)
    requires grid.Valid() && IsPath(grid, obs, trail + [(p, d)]) && (p, d) in trail
    ensures IsPath(grid, obs, trail) && trail[0] == (trail + [(p, d)])[0]
    ensures Next(grid, obs, trail[|trail| - 1]) == Go((p, d))
  {
    PathFront(grid, obs, trail, (p, d));
  }

  /** A step from the last state of a walk extends the walk. */
  lemma Stepped(grid: Grid<char>, obs: Option<Point>, trail: seq<State>, p: Point, d: Dir, q: Point, d': Dir)
    requires grid.Valid() && IsPath(grid, obs, trail) && trail[|trail| - 1] == (p, d)
    requires Next(grid, obs, (p, d)) == Go((q, d')) && CanStart(grid, obs, p)
    ensures IsPath(grid, obs, trail + [(q, d')]) && (trail + [(q, d')])[0] == trail[0]
    ensures CanStart(grid, obs, q)
  {
    assert !Blocked(grid, obs, q.Add(d'.Opposite().Step(1)));
    PathSnoc(grid, obs, trail, (q, d'));
  }

  // ---------------------------------------------------------------- the count

  /** The number of nonzero masks. */
  function NonZero(cs: seq<bv8>): (n: nat)
    ensures n <= |cs|
  {
    if cs == [] then 0 else NonZero(cs[..|cs| - 1]) + if cs[|cs| - 1] != 0 then 1 else 0
  }

  /** Writing mask `c` at `i` changes the number of nonzero masks by what the old and new masks contribute. */
  lemma {:induction false} NonZeroWrite(cs: seq<bv8>, i: nat, c: bv8)
    requires i < |cs|
    ensures NonZero(cs[i := c]) + (if cs[i] != 0 then 1 else 0) == NonZero(cs) + (if c != 0 then 1 else 0)
    decreases |cs|
  {
    var n := |cs| - 1;
    var cs' := cs[i := c];
    assert cs'[..n] == if i < n then cs[..n][i := c] else cs[..n];
    if i < n {
      NonZeroWrite(cs[..n], i, c);
    }
  }

  /** All-zero masks have no nonzero mask. */
  lemma {:induction false} NonZeroZeros(cs: seq<bv8>)
    requires forall k :: 0 <= k < |cs| ==> cs[k] == 0
    ensures NonZero(cs) == 0
    decreases |cs|
  {
    if cs != [] {
      NonZeroZeros(cs[..|cs| - 1]);
    }
  }

  /** A walk from an inside cell stays inside. */
  lemma {:induction false} PathInside(grid: Grid<char>, obs: Option<Point>, tr: seq<State>)
    requires grid.Valid() && IsPath(grid, obs, tr) && grid.IsInside(tr[0].0)
    ensures forall k :: 0 <= k < |tr| ==> grid.IsInside(tr[k].0)
    decreases |tr|
  {
    if |tr| > 1 {
      var n := |tr| - 1;
      assert forall k :: 0 <= k < n ==> tr[..n][k] == tr[k];
      PathInside(grid, obs, tr[..n]);
    }
  }

  /** Over a walk of inside cells, the number of points stood on is the number of nonzero masks. */
  lemma {:induction false} MasksCount(vis: Grid<char>, tr: seq<State>)
    requires 0 <= vis.dx && 0 <= vis.dy
    requires forall k :: 0 <= k < |tr| ==> vis.IsInside(tr[k].0)
    ensures NonZero(Masks(vis, tr)) == |Points(tr)|
    decreases |tr|
  {
    if tr == [] {
      NonZeroZeros(Masks(vis, tr));
      assert Points(tr) == {};
    } else {
      var n := |tr| - 1;
      var t, s := tr[..n], tr[n];
      assert tr == t + [s];
      assert forall k :: 0 <= k < n ==> t[k] == tr[k];
      MasksCount(vis, t);
      var cs := Masks(vis, t);
      var i := vis.ToIndex(s.0).value;
      MasksSnoc(vis, t, s.0, s.1);
      NonZeroWrite(cs, i, cs[i] | Bit(s.1));
      OrBit(cs[i], s.1);
      MaskZero(vis, t, s.0);
      PointsSnoc(t, s);
    }
  }

  /** `count` of a walk is the number of nonzero masks it leaves. */
  lemma WalkCount(grid: Grid<char>, obs: Option<Point>, trail: seq<State>)
    requires grid.Valid() && IsPath(grid, obs, trail) && grid.IsInside(trail[0].0)
    ensures NonZero(Masks(grid, trail)) == |Points(trail)|
  {
    PathInside(grid, obs, trail);
    MasksCount(grid, trail);
  }

  // ---------------------------------------------------------------- how walks end

  /** A walk from the same state as a longer walk takes a step from its last state. */
  lemma StepsOn(grid: Grid<char>, obs: Option<Point>, t1: seq<State>, t2: seq<State>)
    requires grid.Valid() && IsPath(grid, obs, t1) && IsPath(grid, obs, t2) && t1[0] == t2[0] && |t1| < |t2|
    ensures Next(grid, obs, t1[|t1| - 1]) == Go(t2[|t1|])
  {
    PathsAgree(grid, obs, t1, t2, |t1| - 1);
    PathLink(grid, obs, t2, |t1| - 1);
  }

  /** A walk from the same state as a walk that stops is a prefix of it. */
  lemma StopBounds(grid: Grid<char>, obs: Option<Point>, t1: seq<State>, t2: seq<State>)
    requires grid.Valid() && IsPath(grid, obs, t1) && IsPath(grid, obs, t2) && t1[0] == t2[0]
    requires !Next(grid, obs, t1[|t1| - 1]).Go?
    ensures |t2| <= |t1| && forall k :: 0 <= k < |t2| ==> t2[k] == t1[k]
  {
    if |t2| > |t1| {
      StepsOn(grid, obs, t1, t2);
    }
    forall k | 0 <= k < |t2|
      ensures t2[k] == t1[k]
    {
      PathsAgree(grid, obs, t1, t2, k);
    }
  }

  /** Two walks from one state that both stop are the same walk. */
  lemma StopsAgree(grid: Grid<char>, obs: Option<Point>, t1: seq<State>, t2: seq<State>)
    requires grid.Valid() && IsPath(grid, obs, t1) && IsPath(grid, obs, t2) && t1[0] == t2[0]
    requires !Next(grid, obs, t1[|t1| - 1]).Go? && !Next(grid, obs, t2[|t2| - 1]).Go?
    ensures t1 == t2
  {
    StopBounds(grid, obs, t1, t2);
    StopBounds(grid, obs, t2, t1);
  }

  /** Every walk from the start of a walk that stops either goes on or stops the same way. */
  lemma StopsAgain(grid: Grid<char>, obs: Option<Point>, t1: seq<State>, t2: seq<State>)
    requires grid.Valid() && IsPath(grid, obs, t1) && IsPath(grid, obs, t2) && t1[0] == t2[0]
    requires !Next(grid, obs, t1[|t1| - 1]).Go?
    ensures Next(grid, obs, t2[|t2| - 1]).Go? || Next(grid, obs, t2[|t2| - 1]) == Next(grid, obs, t1[|t1| - 1])
  {
    StopBounds(grid, obs, t1, t2);
    if |t2| < |t1| {
      PathLink(grid, obs, t1, |t2| - 1);
    } else {
      assert t2 == t1;
    }
  }

  /** A walk that leaves the grid neither panics nor loops. */
  lemma ExitsExclusive(grid: Grid<char>, obs: Option<Point>, s0: State, t1: seq<State>)
    requires grid.Valid() && IsPath(grid, obs, t1) && t1[0] == s0 && Next(grid, obs, t1[|t1| - 1]) == Exit
    ensures Exits(grid, obs, s0) && !Panics(grid, obs, s0) && !Loops(grid, obs, s0)
  {
    forall t2 | IsPath(grid, obs, t2) && t2[0] == s0
      ensures Next(grid, obs, t2[|t2| - 1]) != Panic
      ensures !(Next(grid, obs, t2[|t2| - 1]).Go? && Next(grid, obs, t2[|t2| - 1]).next in t2)
    {
      StopsAgain(grid, obs, t1, t2);
      if Next(grid, obs, t2[|t2| - 1]).Go? && Next(grid, obs, t2[|t2| - 1]).next in t2 {
        LoopGoesOn(grid, obs, t1, t2);
      }
    }
  }

  /** Some walk from `s0` stands on `q`. */
  ghost predicate Visits(grid: Grid<char>, obs: Option<Point>, s0: State, q: Point)
    reads grid
    requires grid.Valid()
  {
    exists tr :: IsPath(grid, obs, tr) && tr[0] == s0 && q in Points(tr)
  }

  /** A walk that leaves the grid or loops stands on every point that any walk from its start stands on. */
  lemma EndedVisits(grid: Grid<char>, obs: Option<Point>, trail: seq<State>, out: Outcome, q: Point)
    requires grid.Valid() && IsPath(grid, obs, trail) && Ends(grid, obs, trail, out) && out != Panicked
    ensures Visits(grid, obs, trail[0], q) <==> q in Points(trail)
  {
    if Visits(grid, obs, trail[0], q) {
      var tr :| IsPath(grid, obs, tr) && tr[0] == trail[0] && q in Points(tr);
      var s: State :| s in tr && s.0 == q;
      var k :| 0 <= k < |tr| && tr[k] == s;
      if out == Exited {
        StopBounds(grid, obs, trail, tr);
        assert trail[k] == s;
      } else {
        StaysInLoop(grid, obs, tr, trail, k);
      }
    }
  }

  /** The points such a walk stands on are the positions any walk from its start reaches. */
  lemma VisitedCells(grid: Grid<char>, obs: Option<Point>, trail: seq<State>, out: Outcome)
    requires grid.Valid() && IsPath(grid, obs, trail) && Ends(grid, obs, trail, out) && out != Panicked
    requires grid.IsInside(trail[0].0)
    ensures Points(trail) == set q | q in grid.Positions() && Visits(grid, obs, trail[0], q)
  {
    PathInside(grid, obs, trail);
    forall q | q in Points(trail)
      ensures q in grid.Positions() && Visits(grid, obs, trail[0], q)
    {
      var s: State :| s in trail && s.0 == q;
      grid.PositionsComplete(q);
      EndedVisits(grid, obs, trail, out, q);
    }
    forall q | q in grid.Positions() && Visits(grid, obs, trail[0], q)
      ensures q in Points(trail)
    {
      EndedVisits(grid, obs, trail, out, q);
    }
  }

  // ---------------------------------------------------------------- the stars

  /** `find_start`: the first position, in row order, holding the guard. */
  method FindStart(grid: Grid<char>) returns (r: Option<Point>)
    requires grid.Valid()
    ensures r.None? <==> GUARD !in grid.cells
    ensures r.Some? ==> grid.Get(r.value) == Some(GUARD)
    ensures r.Some? ==> forall k :: 0 <= k < grid.ToIndex(r.value).value ==> grid.cells[k] != GUARD
  {
    var ps := grid.Positions();
    for k := 0 to |ps|
      invariant forall j :: 0 <= j < k ==> grid.cells[j] != GUARD
    {
      var c := grid.Get(ps[k]);
      assert c == Some(grid.cells[k]);
      if c == Some(GUARD) {
        return Some(ps[k]);
      }
    }
    return None;
  }

  /** A cell `stars` tries the obstacle on: stood on by the plain walk, and not the start. */
  ghost predicate Candidate(grid: Grid<char>, start: Point, dir: Dir, p: Point)
    reads grid
    requires grid.Valid()
  {
    p != start && Visits(grid, None, (start, dir), p)
  }

  /** An obstacle at the candidate `p` traps the guard in a loop. */
  ghost predicate Trap(grid: Grid<char>, start: Point, dir: Dir, p: Point)
    reads grid
    requires grid.Valid()
  {
    Candidate(grid, start, dir, p) && Loops(grid, Some(p), (start, dir))
  }

  /** An obstacle at `p` does not make a walk `stars` takes panic. */
  ghost predicate Harmless(grid: Grid<char>, start: Point, dir: Dir, p: Point)
    reads grid
    requires grid.Valid()
  {
    !(Candidate(grid, start, dir, p) && Panics(grid, Some(p), (start, dir)))
  }

  /** No cell of `ps` is harmful. */
  ghost predicate AllHarmless(grid: Grid<char>, start: Point, dir: Dir, ps: seq<Point>)
    reads grid
    requires grid.Valid()
    decreases |ps|
  {
    ps == [] || (AllHarmless(grid, start, dir, ps[..|ps| - 1]) && Harmless(grid, start, dir, ps[|ps| - 1]))
  }

  /** One more harmless cell of `ps` keeps the prefix harmless. */
  lemma HarmlessPrefix(grid: Grid<char>, start: Point, dir: Dir, ps: seq<Point>, k: nat)
    requires grid.Valid() && k < |ps| && AllHarmless(grid, start, dir, ps[..k]) && Harmless(grid, start, dir, ps[k])
    ensures AllHarmless(grid, start, dir, ps[..k + 1])
  {
    assert ps[..k + 1][..k] == ps[..k];
  }

  /** Every cell of a harmless sequence is harmless. */
  lemma {:induction false} HarmlessAll(grid: Grid<char>, start: Point, dir: Dir, ps: seq<Point>, j: nat)
    requires grid.Valid() && AllHarmless(grid, start, dir, ps) && j < |ps|
    ensures Harmless(grid, start, dir, ps[j])
    decreases |ps|
  {
    if j < |ps| - 1 {
      HarmlessAll(grid, start, dir, ps[..|ps| - 1], j);
    }
  }

  /** Where every position is harmless, every inside cell is. */
  lemma HarmlessGrid(grid: Grid<char>, start: Point, dir: Dir)
    requires grid.Valid() && AllHarmless(grid, start, dir, grid.Positions())
    ensures forall p :: grid.IsInside(p) ==> Harmless(grid, start, dir, p)
  {
    forall p | grid.IsInside(p)
      ensures Harmless(grid, start, dir, p)
    {
      grid.PositionsComplete(p);
      HarmlessAll(grid, start, dir, grid.Positions(), grid.ToIndex(p).value);
    }
  }

  /** The number of trapping cells in `ps`, counting each entry of `ps`. */
  ghost function Traps(grid: Grid<char>, start: Point, dir: Dir, ps: seq<Point>): nat
    reads grid
    requires grid.Valid()
  {
    if ps == [] then 0
    else Traps(grid, start, dir, ps[..|ps| - 1]) + if Trap(grid, start, dir, ps[|ps| - 1]) then 1 else 0
  }

  /** One more cell of `ps` adds one to the count exactly when it traps. */
  lemma TrapsPrefix(grid: Grid<char>, start: Point, dir: Dir, ps: seq<Point>, k: nat)
    requires grid.Valid() && k < |ps|
    ensures Traps(grid, start, dir, ps[..k + 1]) == Traps(grid, start, dir, ps[..k]) + if Trap(grid, start, dir, ps[k]) then 1 else 0
  {
    assert ps[..k + 1][..k] == ps[..k];
  }

  /**
   * One round of `stars`' loop on the inside cell `p`: the start and the cells with a zero
   * mask are skipped (`Some(false)`); otherwise the walk with an obstacle at `p` is taken:
   * `None` when it panics, otherwise whether it loops.
   */
  method TryObstacle(grid: Grid<char>, start: Point, dir: Dir, vis: Grid<bv8>, ghost trail: seq<State>, ghost out: Outcome, p: Point)
    returns (r: Option<bool>)
    requires grid.Valid() && vis.Valid() && vis.dx == grid.dx && vis.dy == grid.dy && grid.IsInside(p)
    requires IsPath(grid, None, trail) && trail[0] == (start, dir) && Ends(grid, None, trail, out) && out != Panicked
    requires vis.cells == Masks(grid, trail)
    requires p != start ==> CanStart(grid, Some(p), start)
    ensures r.None? <==> Candidate(grid, start, dir, p) && Panics(grid, Some(p), (start, dir))
    ensures r.Some? ==> (r.value <==> Trap(grid, start, dir, p))
  {
    CandidateOf(grid, start, dir, vis, trail, out, p);
    if p == start || vis.Get(p).value == 0 {
      return Some(false);
    }
    var _, _, o, t := Walk(grid, start, dir, Some(p));
    var last := t[|t| - 1];
    match o
    case Panicked =>
      assert IsPath(grid, Some(p), t) && t[0] == (start, dir) && Next(grid, Some(p), last) == Panic;
      r := None;
    case Exited =>
      ExitsExclusive(grid, Some(p), (start, dir), t);
      r := Some(false);
    case Looped =>
      LoopsExclusive(grid, Some(p), (start, dir), t);
      r := Some(true);
  }

  /** An inside cell other than the start is a candidate exactly when the marks of the walk record it. */
  lemma CandidateOf(grid: Grid<char>, start: Point, dir: Dir, vis: Grid<bv8>, trail: seq<State>, out: Outcome, p: Point)
    requires grid.Valid() && vis.Valid() && vis.dx == grid.dx && vis.dy == grid.dy && grid.IsInside(p)
    requires IsPath(grid, None, trail) && trail[0] == (start, dir) && Ends(grid, None, trail, out) && out != Panicked
    requires vis.cells == Masks(grid, trail)
    ensures vis.Get(p).Some?
    ensures Candidate(grid, start, dir, p) <==> p != start && vis.Get(p).value != 0
  {
    MaskZero(grid, trail, p);
    EndedVisits(grid, None, trail, out, p);
    assert vis.ToIndex(p) == grid.ToIndex(p);
  }

  /**
   * `stars`' loop over the inside cells `ps`: tries the obstacle on each and counts the
   * trapping ones. `None` at the first cell whose walk panics.
   */
  method CountTraps(grid: Grid<char>, start: Point, dir: Dir, vis: Grid<bv8>, ghost trail: seq<State>, ghost out: Outcome, ps: seq<Point>)
    returns (r: Option<nat>)
    requires grid.Valid() && vis.Valid() && vis.dx == grid.dx && vis.dy == grid.dy
    requires IsPath(grid, None, trail) && trail[0] == (start, dir) && Ends(grid, None, trail, out) && out != Panicked
    requires vis.cells == Masks(grid, trail)
    requires forall p :: grid.IsInside(p) && p != start ==> CanStart(grid, Some(p), start)
    requires forall j :: 0 <= j < |ps| ==> grid.IsInside(ps[j])
    ensures r.None? ==> exists j :: 0 <= j < |ps| && !Harmless(grid, start, dir, ps[j])
    ensures r.Some? ==> AllHarmless(grid, start, dir, ps) && r.value == Traps(grid, start, dir, ps)
  {
    var num := 0;
    for k := 0 to |ps|
      invariant num == Traps(grid, start, dir, ps[..k])
      invariant AllHarmless(grid, start, dir, ps[..k])
    {
      var t := TryObstacle(grid, start, dir, vis, trail, out, ps[k]);
      if t.None? {
        return None;
      }
      TrapsPrefix(grid, start, dir, ps, k);
      HarmlessPrefix(grid, start, dir, ps, k);
      num := num + if t.value then 1 else 0;
    }
    assert ps[..|ps|] == ps;
    return Some(num);
  }

  /**
   * `stars`: the number of cells the plain walk stands on, and the number of candidate
   * cells where an obstacle traps the guard. `None` where a walk panics.
   */
  method Stars(grid: Grid<char>, start: Point, dir: Dir) returns (r: Option<(nat, nat)>)
    requires grid.Valid() && CanStart(grid, None, start)
    requires forall p :: grid.IsInside(p) && p != start ==> CanStart(grid, Some(p), start)
    ensures r.None? <==>
      (Panics(grid, None, (start, dir)) ||
       exists p :: grid.IsInside(p) && Candidate(grid, start, dir, p) && Panics(grid, Some(p), (start, dir)))
    ensures r.Some? ==> r.value.0 == |set q | q in grid.Positions() && Visits(grid, None, (start, dir), q)|
    ensures r.Some? ==> r.value.1 == Traps(grid, start, dir, grid.Positions())
  {
    var vis, count, out, trail := Walk(grid, start, dir, None);
    if out == Panicked {
      assert IsPath(grid, None, trail) && trail[0] == (start, dir) && Next(grid, None, trail[|trail| - 1]) == Panic;
      return None;
    }
    if out == Exited {
      ExitsExclusive(grid, None, (start, dir), trail);
    } else {
      LoopsExclusive(grid, None, (start, dir), trail);
    }
    var num := CountTraps(grid, start, dir, vis, trail, out, grid.Positions());
    if num.None? {
      return None;
    }
    HarmlessGrid(grid, start, dir);
    VisitedCells(grid, None, trail, out);
    return Some((count, num.value));
  }
}

/**
 * Day 14: robots move with constant velocity on a torus; the safety factor is the
 * product of the robot counts in the four quadrants after a number of seconds.
 */
module Day14 {
  import opened Wrappers
  import opened Text
  import opened Bits

  /** `str::parse` into `i32`, the coordinate type: a value read is an `i32`. */
  function ParseCoord(s: string): (r: Option<int>)
    ensures r.Some? ==> IsI32(r.value)
  {
    ParseInt(s, I32_MIN, I32_MAX)
  }

  datatype Robot = Robot(p: (int, int), v: (int, int))

  /** `parse_coords`: the prefix, then `x,y` with two `i32`s. */
  function ParseCoords(s: string, prefix: string): (r: Result<(int, int)>)
    ensures r.Ok? <==> (StripPrefix(s, prefix).Some? && SplitOnce(StripPrefix(s, prefix).value, ',').Some? &&
                        var (xs, ys) := SplitOnce(StripPrefix(s, prefix).value, ',').value;
                        ParseCoord(xs).Some? && ParseCoord(ys).Some?)
    ensures r.Ok? ==> IsI32(r.value.0) && IsI32(r.value.1)
  {
    match StripPrefix(s, prefix)
    case None => Err("invalid " + s + " for " + prefix)
    case Some(rest) =>
      match SplitOnce(rest, ',')
      case None => Err("invalid " + s + " for " + prefix)
      case Some((xs, ys)) =>
        if ParseCoord(xs).Some? && ParseCoord(ys).Some? then Ok((ParseCoord(xs).value, ParseCoord(ys).value))
        else Err("invalid " + s + " for " + prefix)
  }

  /** `parse_robot`: `p=x,y v=x,y`, split at the first space. */
  function ParseRobot(line: string): (r: Result<Robot>)
    ensures r.Ok? <==> (SplitOnce(line, ' ').Some? &&
                        ParseCoords(SplitOnce(line, ' ').value.0, "p=").Ok? &&
                        ParseCoords(SplitOnce(line, ' ').value.1, "v=").Ok?)
    ensures r.Ok? ==> r.value == Robot(ParseCoords(SplitOnce(line, ' ').value.0, "p=").value,
                                       ParseCoords(SplitOnce(line, ' ').value.1, "v=").value)
  {
    match SplitOnce(line, ' ')
    case None => Err("invalid line: " + line)
    case Some((ps, vs)) =>
      match ParseCoords(ps, "p=")
      case Err(e) => Err(e)
      case Ok(p) =>
        match ParseCoords(vs, "v=")
        case Err(e) => Err(e)
        case Ok(v) => Ok(Robot(p, v))
  }

  /** A robot written out as the puzzle input shows it. */
  function RobotText(r: Robot): string
  {
    "p=" + IntToString(r.p.0) + "," + IntToString(r.p.1) + " v=" + IntToString(r.v.0) + "," + IntToString(r.v.1)
  }

  /** A pair of `i32`s after its prefix parses back. */
  lemma ParseCoordsOf(prefix: string, x: int, y: int)
    requires IsI32(x) && IsI32(y)
    ensures ParseCoords(prefix + IntToString(x) + "," + IntToString(y), prefix) == Ok((x, y))
  {
    var xs, ys := IntToString(x), IntToString(y);
    var s := prefix + xs + "," + ys;
    assert s == prefix + (xs + [','] + ys);
    assert StripPrefix(s, prefix) == Some(xs + [','] + ys);
    IntToStringChars(x);
    assert ',' !in xs by { assert forall i :: 0 <= i < |xs| ==> xs[i] != ','; }
    SplitOnceAt(xs, ',', ys);
    ParseIntOfIntToString(x, I32_MIN, I32_MAX);
    ParseIntOfIntToString(y, I32_MIN, I32_MAX);
  }

  /** Every robot with `i32` coordinates parses back from its line. */
  lemma ParseRobotRoundTrip(r: Robot)
    requires IsI32(r.p.0) && IsI32(r.p.1) && IsI32(r.v.0) && IsI32(r.v.1)
    ensures ParseRobot(RobotText(r)) == Ok(r)
  {
    var ps := "p=" + IntToString(r.p.0) + "," + IntToString(r.p.1);
    var vs := "v=" + IntToString(r.v.0) + "," + IntToString(r.v.1);
    assert RobotText(r) == ps + [' '] + vs;
    IntToStringChars(r.p.0);
    IntToStringChars(r.p.1);
    assert ' ' !in ps by {
      assert forall i :: 2 <= i < 2 + |IntToString(r.p.0)| ==> ps[i] == IntToString(r.p.0)[i - 2];
      assert forall i :: 3 + |IntToString(r.p.0)| <= i < |ps| ==> ps[i] == IntToString(r.p.1)[i - 3 - |IntToString(r.p.0)|];
    }
    SplitOnceAt(ps, ' ', vs);
    ParseCoordsOf("p=", r.p.0, r.p.1);
    ParseCoordsOf("v=", r.v.0, r.v.1);
  }

  /** `v % w` does not overflow `i32`: only `i32::MIN % -1` does. */
  predicate RemOk(v: int, w: int)
  {
    w != 0 && IsI32(v) && IsI32(w) && !(v == I32_MIN && w == -1)
  }

  /**
   * `wrap`: the remainder of `v` by `w`, moved into `0..w` when it is negative.
   * For a positive width it is the Euclidean remainder: in `0..w` and congruent to `v`.
   */
  function Wrap(v: int, w: int): (r: int)
    requires RemOk(v, w)
    ensures w > 0 ==> 0 <= r < w && r == v % w
  {
    var r := TruncRem(v, w);
    var q := TruncDiv(v, w);
    if v >= 0 || r == 0 then
      assert w > 0 ==> r == v % w by { if w > 0 { ModUnique(v, w, q, r); } }
      r
    else
      assert w > 0 ==> w + r == v % w by {
        if w > 0 {
          assert w * (q - 1) == w * q - w;
          ModUnique(v, w, q - 1, w + r);
        }
      }
      w + r
  }

  lemma WrapExamples()
    ensures Wrap(3, 3) == 0 && Wrap(-3, 3) == 0 && Wrap(5, 3) == 2 && Wrap(-5, 3) == 1
  {
  }

  // ---------------------------------------------------------------- quadrants

  /** The coordinates stay in `i32` while the robot is moved `nsec` seconds on. */
  predicate MoveOk(r: Robot, nsec: int)
  {
    IsI32(r.v.0 * nsec) && IsI32(r.p.0 + r.v.0 * nsec) &&
    IsI32(r.v.1 * nsec) && IsI32(r.p.1 + r.v.1 * nsec)
  }

  /** Where the robot is after `nsec` seconds on a `dx` by `dy` torus. */
  function Position(r: Robot, dx: int, dy: int, nsec: int): (int, int)
    requires MoveOk(r, nsec) && 0 < dx <= I32_MAX && 0 < dy <= I32_MAX
  {
    (Wrap(r.p.0 + r.v.0 * nsec, dx), Wrap(r.p.1 + r.v.1 * nsec, dy))
  }

  /**
   * The quadrant of a position, `ix + iy` with `ix` 0 left of the middle column and 1
   * right of it, `iy` 0 above the middle row and 2 below it; nothing on the middle lines.
   */
  function Quadrant(x: int, y: int, hx: int, hy: int): (q: Option<nat>)
    ensures q.Some? <==> x != hx && y != hy
    ensures q.Some? ==> q.value < 4 && (q.value % 2 == 1 <==> x > hx) && (q.value >= 2 <==> y > hy)
  {
    if x == hx || y == hy then None
    else Some((if x < hx then 0 else 1) + (if y < hy then 0 else 2))
  }

  predicate AllMoveOk(robots: seq<Robot>, nsec: int)
  {
    forall i :: 0 <= i < |robots| ==> MoveOk(robots[i], nsec)
  }

  /** The quadrants of the robots that are not on a middle line, in robot order. */
  function Quadrants(robots: seq<Robot>, dx: int, dy: int, nsec: int): (qs: seq<nat>)
    requires AllMoveOk(robots, nsec) && 0 < dx <= I32_MAX && 0 < dy <= I32_MAX
    ensures |qs| <= |robots| && forall i :: 0 <= i < |qs| ==> qs[i] < 4
  {
    if robots == [] then []
    else
      var init := Quadrants(robots[..|robots| - 1], dx, dy, nsec);
      var (x, y) := Position(robots[|robots| - 1], dx, dy, nsec);
      match Quadrant(x, y, TruncDiv(dx, 2), TruncDiv(dy, 2))
      case None => init
      case Some(q) => init + [q]
  }

  /** The fold into `[0; 4]`: entry `q` counts the occurrences of `q`. */
  function Tally(qs: seq<nat>): (acc: seq<nat>)
    requires forall i :: 0 <= i < |qs| ==> qs[i] < 4
    ensures |acc| == 4 && forall q :: 0 <= q < 4 ==> acc[q] == multiset(qs)[q]
  {
    if qs == [] then [0, 0, 0, 0]
    else
      var init := Tally(qs[..|qs| - 1]);
      var q := qs[|qs| - 1];
      assert qs == qs[..|qs| - 1] + [q];
      init[q := init[q] + 1]
  }

  /** The product of the four counts, `.iter().product()` over `[usize; 4]`. */
  function Product(acc: seq<nat>): nat
    requires |acc| == 4
  {
    acc[0] * acc[1] * acc[2] * acc[3]
  }

  /** `safety_factor`; the `usize` product of the four counts must not overflow. */
  function SafetyFactor(robots: seq<Robot>, dx: int, dy: int, nsec: int): (r: nat)
    requires AllMoveOk(robots, nsec) && 0 < dx <= I32_MAX && 0 < dy <= I32_MAX
    requires Product(Tally(Quadrants(robots, dx, dy, nsec))) < U64_LIMIT
    ensures var m := multiset(Quadrants(robots, dx, dy, nsec));
      r == Product([m[0], m[1], m[2], m[3]])
  {
    var qs := Quadrants(robots, dx, dy, nsec);
    var acc := Tally(qs);
    assert acc == [multiset(qs)[0], multiset(qs)[1], multiset(qs)[2], multiset(qs)[3]];
    Product(acc)
  }

  /** The four counts add up to the number of robots off the middle lines. */
  lemma {:induction false} TallySum(qs: seq<nat>)
    requires forall i :: 0 <= i < |qs| ==> qs[i] < 4
    ensures var acc := Tally(qs); acc[0] + acc[1] + acc[2] + acc[3] == |qs|
  {
    if qs != [] { TallySum(qs[..|qs| - 1]); }
  }

  /** A robot on the middle column or the middle row is in no quadrant. */
  lemma {:induction false} MiddleExcluded(robots: seq<Robot>, dx: int, dy: int, nsec: int)
    requires AllMoveOk(robots, nsec) && 0 < dx <= I32_MAX && 0 < dy <= I32_MAX
    requires forall i :: 0 <= i < |robots| ==>
      var (x, y) := Position(robots[i], dx, dy, nsec); x == TruncDiv(dx, 2) || y == TruncDiv(dy, 2)
    ensures Quadrants(robots, dx, dy, nsec) == []
  {
    if robots != [] { MiddleExcluded(robots[..|robots| - 1], dx, dy, nsec); }
  }

  /** The quadrant of robot `i`, if it is off the middle lines. */
  function QuadrantOf(robots: seq<Robot>, i: nat, dx: int, dy: int, nsec: int): Option<nat>
    requires AllMoveOk(robots, nsec) && 0 < dx <= I32_MAX && 0 < dy <= I32_MAX && i < |robots|
  {
    var (x, y) := Position(robots[i], dx, dy, nsec);
    Quadrant(x, y, TruncDiv(dx, 2), TruncDiv(dy, 2))
  }

  /** Every quadrant counted is that of some robot, and every robot off the middle lines is counted. */
  lemma {:induction false} QuadrantsOfRobots(robots: seq<Robot>, dx: int, dy: int, nsec: int)
    requires AllMoveOk(robots, nsec) && 0 < dx <= I32_MAX && 0 < dy <= I32_MAX
    ensures forall k :: 0 <= k < |Quadrants(robots, dx, dy, nsec)| ==>
      exists i :: 0 <= i < |robots| && QuadrantOf(robots, i, dx, dy, nsec) == Some(Quadrants(robots, dx, dy, nsec)[k])
    ensures forall i :: 0 <= i < |robots| && QuadrantOf(robots, i, dx, dy, nsec).Some? ==>
      QuadrantOf(robots, i, dx, dy, nsec).value in Quadrants(robots, dx, dy, nsec)
  {
    if robots != [] {
      var init := robots[..|robots| - 1];
      QuadrantsOfRobots(init, dx, dy, nsec);
      assert forall i :: 0 <= i < |init| ==> QuadrantOf(init, i, dx, dy, nsec) == QuadrantOf(robots, i, dx, dy, nsec);
      var qs, last := Quadrants(robots, dx, dy, nsec), QuadrantOf(robots, |robots| - 1, dx, dy, nsec);
      assert qs == Quadrants(init, dx, dy, nsec) + (if last.Some? then [last.value] else []);
      forall k | 0 <= k < |Quadrants(robots, dx, dy, nsec)|
        ensures exists i :: 0 <= i < |robots| && QuadrantOf(robots, i, dx, dy, nsec) == Some(Quadrants(robots, dx, dy, nsec)[k])
      {
        if k < |Quadrants(init, dx, dy, nsec)| {
          var i :| 0 <= i < |init| && QuadrantOf(init, i, dx, dy, nsec) == Some(Quadrants(init, dx, dy, nsec)[k]);
          assert QuadrantOf(robots, i, dx, dy, nsec) == Some(qs[k]);
        } else {
          assert QuadrantOf(robots, |robots| - 1, dx, dy, nsec) == Some(qs[k]);
        }
      }
    } else {
      assert Quadrants(robots, dx, dy, nsec) == [];
    }
  }
}

/**
 * Day 4: a word search. Part one counts the places and directions that spell `XMAS`
 * along a straight line; part two counts the `A`s at the centre of two crossing `MAS`.
 */
module Day04 {
  import opened Wrappers
  import opened Grids

  /** The eight directions of `star1`, in its order. */
  const DIRS8: seq<Point> := [Point(-1, -1), Point(0, -1), Point(1, -1), Point(1, 0),
                               Point(1, 1), Point(0, 1), Point(-1, 1), Point(-1, 0)]

  /** The point `k` steps of `d` away from `p`. */
  function Along(p: Point, d: Point, k: nat): Point
    decreases k
  {
    if k == 0 then p else Along(p.Add(d), d, k - 1)
  }

  /**
   * The first `n` bytes of `grid_dir_bytes`: the walk from `p` in steps of `d` that
   * goes on while the next point is inside, keeping the cells of the inside points.
   * Only the start can be outside; its own cell is then dropped.
   */
  function DirBytes(g: Grid<char>, p: Point, d: Point, n: nat): (r: seq<char>)
    reads g
    requires g.Valid()
    ensures |r| <= n
    decreases n, if g.IsInside(p) then 0 else 1
  {
    if n == 0 then []
    else if !g.IsInside(p) then
      if g.IsInside(p.Add(d)) then DirBytes(g, p.Add(d), d, n) else []
    else
      [g.Get(p).value] + (if g.IsInside(p.Add(d)) then DirBytes(g, p.Add(d), d, n - 1) else [])
  }

  /** The number of positions where the two sequences agree, over their common length (`zip`, `filter`, `count`). */
  function MatchCount(x: seq<char>, y: seq<char>): (r: nat)
    ensures r <= |x| && r <= |y|
  {
    if x == [] || y == [] then 0 else (if x[0] == y[0] then 1 else 0) + MatchCount(x[1..], y[1..])
  }

  /** `is_grid_string`: every character of `s` is matched by the cells along the ray. */
  predicate IsGridString(g: Grid<char>, p: Point, d: Point, s: string)
    reads g
    requires g.Valid()
  {
    MatchCount(s, DirBytes(g, p, d, |s|)) == |s|
  }

  /**
   * From an inside start, `is_grid_string` holds exactly when the `|s|` cells along
   * the ray exist and spell `s`.
   */
  lemma {:induction false} IsGridStringIff(g: Grid<char>, p: Point, d: Point, s: string)
    requires g.Valid() && g.IsInside(p)
    ensures IsGridString(g, p, d, s) <==> forall k :: 0 <= k < |s| ==> g.Get(Along(p, d, k)) == Some(s[k])
    decreases |s|
  {
    if s != [] {
      var q := p.Add(d);
      var t := if g.IsInside(q) then DirBytes(g, q, d, |s| - 1) else [];
      assert DirBytes(g, p, d, |s|) == [g.Get(p).value] + t;
      assert MatchCount(s, [g.Get(p).value] + t) ==
        (if s[0] == g.Get(p).value then 1 else 0) + MatchCount(s[1..], t);
      assert forall k :: 0 < k < |s| ==> Along(p, d, k) == Along(q, d, k - 1) && s[k] == s[1..][k - 1];
      if g.IsInside(q) {
        IsGridStringIff(g, q, d, s[1..]);
      } else if |s| > 1 {
        assert Along(p, d, 1) == q;
      }
    }
  }

  /** `star1` for one position: how many of the eight directions spell `XMAS` from `p`. */
  function DirHits(g: Grid<char>, p: Point, n: nat): (c: nat)
    reads g
    requires g.Valid() && n <= 8
    ensures c <= n
  {
    if n == 0 then 0 else DirHits(g, p, n - 1) + (if IsGridString(g, p, DIRS8[n - 1], "XMAS") then 1 else 0)
  }

  /** The hits over a list of positions. */
  function HitsOver(g: Grid<char>, ps: seq<Point>): nat
    reads g
    requires g.Valid()
  {
    if ps == [] then 0 else HitsOver(g, ps[..|ps| - 1]) + DirHits(g, ps[|ps| - 1], 8)
  }

  /**
   * `star1`: the (position, direction) pairs that spell `XMAS`; each inside point and
   * direction is counted exactly once (the points of `Positions` are the inside points).
   */
  function Star1(g: Grid<char>): (r: nat)
    reads g
    requires g.Valid()
    ensures r == |HitSet(g, g.Positions(), 8)|
  {
    PositionsDistinct(g);
    HitsOverCount(g, g.Positions());
    HitsOver(g, g.Positions())
  }

  /** The pairs of a point of `ps` and a direction slot spelling `XMAS` from it. */
  function HitSet(g: Grid<char>, ps: seq<Point>, n: nat): set<(Point, nat)>
    reads g
    requires g.Valid() && n <= 8
  {
    set p, i | p in ps && 0 <= i < n && IsGridString(g, p, DIRS8[i], "XMAS") :: (p, i)
  }

  lemma {:induction false} DirHitsCount(g: Grid<char>, p: Point, n: nat)
    requires g.Valid() && n <= 8
    ensures DirHits(g, p, n) == |HitSet(g, [p], n)|
  {
    if n == 0 {
      assert HitSet(g, [p], 0) == {};
    } else {
      DirHitsCount(g, p, n - 1);
      var hit := IsGridString(g, p, DIRS8[n - 1], "XMAS");
      HitSetStep(g, p, n, hit);
    }
  }

  /** The hits of the first `n` slots are those of the first `n - 1`, and slot `n - 1` when it hits. */
  lemma HitSetStep(g: Grid<char>, p: Point, n: nat, hit: bool)
    requires g.Valid() && 1 <= n <= 8 && hit == IsGridString(g, p, DIRS8[n - 1], "XMAS")
    ensures HitSet(g, [p], n) == HitSet(g, [p], n - 1) + (if hit then {(p, n - 1)} else {})
  {
    forall h | h in HitSet(g, [p], n) ensures h in HitSet(g, [p], n - 1) + (if hit then {(p, n - 1)} else {}) {
      assert h.0 == p && h.1 < n;
    }
  }

  lemma HitSetSplit(g: Grid<char>, ps: seq<Point>)
    requires g.Valid() && ps != [] && Distinct(ps)
    ensures var init, last := ps[..|ps| - 1], ps[|ps| - 1];
      HitSet(g, ps, 8) == HitSet(g, init, 8) + HitSet(g, [last], 8) &&
      HitSet(g, init, 8) !! HitSet(g, [last], 8)
  {
    var init, last := ps[..|ps| - 1], ps[|ps| - 1];
    assert ps == init + [last];
    forall h | h in HitSet(g, ps, 8) ensures h in HitSet(g, init, 8) + HitSet(g, [last], 8) {
      if h.0 in init { assert h in HitSet(g, init, 8); } else { assert h in HitSet(g, [last], 8); }
    }
    assert last !in init;
  }

  lemma {:induction false} HitsOverCount(g: Grid<char>, ps: seq<Point>)
    requires g.Valid() && Distinct(ps)
    ensures HitsOver(g, ps) == |HitSet(g, ps, 8)|
  {
    if ps == [] {
      assert HitSet(g, ps, 8) == {};
    } else {
      var init, last := ps[..|ps| - 1], ps[|ps| - 1];
      assert Distinct(init);
      HitsOverCount(g, init);
      DirHitsCount(g, last, 8);
      HitSetSplit(g, ps);
    }
  }

  lemma PositionsDistinct(g: Grid<char>)
    requires g.Valid()
    ensures Distinct(g.Positions())
  {
    var ps := g.Positions();
    forall i, j | 0 <= i < j < |ps| ensures ps[i] != ps[j] {
      assert g.ToIndex(ps[i]) == Some(i) && g.ToIndex(ps[j]) == Some(j);
    }
  }

  // ---------------------------------------------------------------- part two

  /** One diagonal through the centre holds `M` and `S`, in either order. */
  predicate MS(a: Option<char>, b: Option<char>)
  {
    (a, b) == (Some('M'), Some('S')) || (a, b) == (Some('S'), Some('M'))
  }

  /** `is_x_mas`: an `A` with `M` and `S` at the ends of both diagonals. */
  predicate IsXMas(g: Grid<char>, p: Point)
    reads g
    requires g.Valid()
  {
    g.Get(p) == Some('A') &&
    MS(g.Get(Point(p.x - 1, p.y - 1)), g.Get(Point(p.x + 1, p.y + 1))) &&
    MS(g.Get(Point(p.x + 1, p.y - 1)), g.Get(Point(p.x - 1, p.y + 1)))
  }

  function Neg(d: Point): Point { Point(-d.x, -d.y) }

  /** `MAS` is read across `p` along `d`, one way or the other. */
  predicate MasThrough(g: Grid<char>, p: Point, d: Point)
    reads g
    requires g.Valid()
  {
    IsGridString(g, p.Add(Neg(d)), d, "MAS") || IsGridString(g, p.Add(d), Neg(d), "MAS")
  }

  /** Next to an `A`, `MAS` is found from `q` exactly when `q`, `q + d`, `q + 2d` hold it. */
  lemma MasAt(g: Grid<char>, q: Point, d: Point)
    requires g.Valid() && g.Get(q.Add(d)) == Some('A')
    ensures IsGridString(g, q, d, "MAS") <==>
      g.Get(q) == Some('M') && g.Get(q.Add(d).Add(d)) == Some('S')
  {
    var s := "MAS";
    if g.IsInside(q) {
      IsGridStringIff(g, q, d, s);
      assert Along(q, d, 0) == q && Along(q, d, 1) == q.Add(d);
      assert Along(q, d, 2) == Along(q.Add(d), d, 1) == q.Add(d).Add(d);
      assert s[0] == 'M' && s[1] == 'A' && s[2] == 'S';
      if g.Get(q) == Some('M') && g.Get(q.Add(d).Add(d)) == Some('S') {
        assert forall k :: 0 <= k < |s| ==> g.Get(Along(q, d, k)) == Some(s[k]) by {
          forall k | 0 <= k < |s| ensures g.Get(Along(q, d, k)) == Some(s[k]) {
            assert k == 0 || k == 1 || k == 2;
          }
        }
      }
    } else {
      var c := q.Add(d);
      var t := if g.IsInside(c.Add(d)) then DirBytes(g, c.Add(d), d, 2) else [];
      assert DirBytes(g, q, d, 3) == DirBytes(g, c, d, 3) == ['A'] + t;
      assert MatchCount(s, ['A'] + t) == MatchCount(s[1..], t);
    }
  }

  /** Part two's shape is two `MAS` crossing at the `A` on the diagonals. */
  lemma IsXMasIsCrossedMas(g: Grid<char>, p: Point)
    requires g.Valid()
    ensures IsXMas(g, p) <==> g.Get(p) == Some('A') && MasThrough(g, p, Point(1, 1)) && MasThrough(g, p, Point(1, -1))
  {
    if g.Get(p) == Some('A') {
      var d1, d2 := Point(1, 1), Point(1, -1);
      assert p.Add(Neg(d1)).Add(d1) == p && p.Add(d1).Add(Neg(d1)) == p;
      assert p.Add(Neg(d2)).Add(d2) == p && p.Add(d2).Add(Neg(d2)) == p;
      MasAt(g, p.Add(Neg(d1)), d1);
      MasAt(g, p.Add(d1), Neg(d1));
      MasAt(g, p.Add(Neg(d2)), d2);
      MasAt(g, p.Add(d2), Neg(d2));
    }
  }

  /** The positions of `ps` that are the centre of an X-MAS. */
  function XMasCount(g: Grid<char>, ps: seq<Point>): (c: nat)
    reads g
    requires g.Valid()
    ensures c <= |ps|
  {
    if ps == [] then 0 else XMasCount(g, ps[..|ps| - 1]) + (if IsXMas(g, ps[|ps| - 1]) then 1 else 0)
  }

  /** `star2`: each X-MAS centre is counted once. */
  function Star2(g: Grid<char>): (r: nat)
    reads g
    requires g.Valid()
    ensures r == |set p | p in g.Positions() && IsXMas(g, p)|
  {
    PositionsDistinct(g);
    XMasCountIsCard(g, g.Positions());
    XMasCount(g, g.Positions())
  }

  lemma {:induction false} XMasCountIsCard(g: Grid<char>, ps: seq<Point>)
    requires g.Valid() && Distinct(ps)
    ensures XMasCount(g, ps) == |set p | p in ps && IsXMas(g, p)|
  {
    if ps != [] {
      var init, last := ps[..|ps| - 1], ps[|ps| - 1];
      assert Distinct(init);
      XMasCountIsCard(g, init);
      assert ps == init + [last];
      var before := set p | p in init && IsXMas(g, p);
      assert last !in before;
      if IsXMas(g, last) {
        assert (set p | p in ps && IsXMas(g, p)) == before + {last};
      } else {
        assert (set p | p in ps && IsXMas(g, p)) == before;
      }
    }
  }
}

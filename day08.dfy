/**
 * Day 8: antennas of one frequency (an ASCII letter or digit) create antinodes.
 * Part one: the two points in line with a pair of antennas, twice as far from one as
 * from the other. Part two: every point in line with the pair at a whole multiple of
 * their offset. The answers count the distinct antinodes inside the map.
 */
module Day08 {
  import opened Wrappers
  import opened Grids
  import Bits

  predicate IsAsciiAlphanumeric(c: char)
  {
    'a' <= c <= 'z' || 'A' <= c <= 'Z' || '0' <= c <= '9'
  }

  /** The points of `ps` that hold `c`, in their order. */
  function OfKind(g: Grid<char>, ps: seq<Point>, c: char): (r: seq<Point>)
    reads g
    requires g.Valid()
    ensures forall p :: p in r <==> p in ps && g.Get(p) == Some(c)
  {
    if ps == [] then []
    else
      var init := OfKind(g, ps[..|ps| - 1], c);
      var p := ps[|ps| - 1];
      assert ps == ps[..|ps| - 1] + [p];
      if g.Get(p) == Some(c) then init + [p] else init
  }

  /**
   * The fold of `find_antennas` over the points `ps`: each alphanumeric cell appended
   * to the list of its character.
   */
  function AntennasOf(g: Grid<char>, ps: seq<Point>): (m: map<char, seq<Point>>)
    reads g
    requires g.Valid()
    ensures forall c :: c in m <==> IsAsciiAlphanumeric(c) && OfKind(g, ps, c) != []
    ensures forall c :: c in m ==> m[c] == OfKind(g, ps, c)
  {
    if ps == [] then map[]
    else
      var init := AntennasOf(g, ps[..|ps| - 1]);
      var p := ps[|ps| - 1];
      assert ps == ps[..|ps| - 1] + [p];
      var c := g.Get(p);
      if c.Some? && IsAsciiAlphanumeric(c.value) then
        init[c.value := (if c.value in init then init[c.value] else []) + [p]]
      else init
  }

  /** `find_antennas`: for each frequency, its antennas in row-major order. */
  function FindAntennas(g: Grid<char>): (m: map<char, seq<Point>>)
    reads g
    requires g.Valid()
    ensures forall c :: c in m ==> m[c] == OfKind(g, g.Positions(), c)
  {
    AntennasOf(g, g.Positions())
  }

  /** The frequencies found are the alphanumeric characters of the map. */
  lemma FindAntennasKeys(g: Grid<char>, c: char)
    requires g.Valid()
    ensures c in FindAntennas(g) <==> IsAsciiAlphanumeric(c) && c in g.cells
  {
    var ps := g.Positions();
    var r := OfKind(g, ps, c);
    if c in g.cells {
      var i :| 0 <= i < |g.cells| && g.cells[i] == c;
      assert g.ToIndex(ps[i]) == Some(i);
      assert ps[i] in r;
    }
    if r != [] {
      assert r[0] in r;
      var i :| 0 <= i < |ps| && ps[i] == r[0];
      assert g.ToIndex(ps[i]) == Some(i);
    }
  }

  // ---------------------------------------------------------------- pairs

  /** Each antenna with each later one, in order. */
  function Pairs(locs: seq<Point>): (r: seq<(Point, Point)>)
    ensures forall pr :: pr in r <==> exists i, j :: 0 <= i < j < |locs| && pr == (locs[i], locs[j])
  {
    if |locs| == 0 then []
    else
      var head := seq(|locs| - 1, k requires 0 <= k < |locs| - 1 => (locs[0], locs[k + 1]));
      var rest := Pairs(locs[1..]);
      forall pr | pr in head + rest ensures exists i, j :: 0 <= i < j < |locs| && pr == (locs[i], locs[j]) {
        if pr in head {
          var k :| 0 <= k < |head| && head[k] == pr;
          assert pr == (locs[0], locs[k + 1]);
        } else {
          var i, j :| 0 <= i < j < |locs| - 1 && pr == (locs[1..][i], locs[1..][j]);
          assert pr == (locs[i + 1], locs[j + 1]);
        }
      }
      forall i, j | 0 <= i < j < |locs| ensures (locs[i], locs[j]) in head + rest {
        if i == 0 {
          assert head[j - 1] == (locs[i], locs[j]);
        } else {
          assert (locs[1..][i - 1], locs[1..][j - 1]) in rest;
        }
      }
      head + rest
  }

  /** Each unordered pair once: `n (n - 1) / 2` pairs. */
  lemma {:induction false} PairsLength(locs: seq<Point>)
    ensures 2 * |Pairs(locs)| == |locs| * (|locs| - 1)
  {
    if |locs| > 0 {
      PairsLength(locs[1..]);
    }
  }

  // ---------------------------------------------------------------- antinodes

  function Scale(k: int, d: Point): Point { Point(k * d.x, k * d.y) }

  /** `antinodes_1`: `y - d` and `x + d` for `d = x - y`, those inside the map. */
  function Antinodes1(g: Grid<char>, x: Point, y: Point): (r: seq<Point>)
  {
    var d := x.Sub(y);
    var a, b := y.Sub(d), x.Add(d);
    (if g.IsInside(a) then [a] else []) + (if g.IsInside(b) then [b] else [])
  }

  /**
   * The antinodes of part one are the inside points in line with the pair that are
   * twice as far from one antenna as from the other.
   */
  lemma Antinodes1Iff(g: Grid<char>, x: Point, y: Point, q: Point)
    ensures q in Antinodes1(g, x, y) <==>
      g.IsInside(q) && (q.Sub(x) == Scale(2, q.Sub(y)) || q.Sub(y) == Scale(2, q.Sub(x)))
  {
  }

  /** The same antinodes whichever antenna of the pair comes first. */
  lemma Antinodes1Symmetric(g: Grid<char>, x: Point, y: Point)
    ensures forall q :: q in Antinodes1(g, x, y) <==> q in Antinodes1(g, y, x)
  {
    forall q ensures q in Antinodes1(g, x, y) <==> q in Antinodes1(g, y, x) {
      Antinodes1Iff(g, x, y, q);
      Antinodes1Iff(g, y, x, q);
    }
  }

  /** How many more steps of `d` from `p` can stay inside, bounded by one coordinate. */
  function Room(g: Grid<char>, p: Point, d: Point): nat
    requires g.IsInside(p)
  {
    if d.x > 0 then g.dx - p.x else if d.x < 0 then p.x + 1
    else if d.y > 0 then g.dy - p.y else p.y + 1
  }

  /** The `successors` walk from `p` in steps of `d` while the next point is inside. */
  function Ray(g: Grid<char>, p: Point, d: Point): (r: seq<Point>)
    requires g.IsInside(p) && d != Point(0, 0)
    ensures |r| > 0 && r[0] == p && forall q :: q in r ==> g.IsInside(q)
    decreases Room(g, p, d)
  {
    var q := p.Add(d);
    [p] + (if g.IsInside(q) then Ray(g, q, d) else [])
  }

  /** A step of `d` from `p` towards an inside point `p + k d` stays inside. */
  lemma Between(g: Grid<char>, p: Point, d: Point, k: int)
    requires g.IsInside(p) && k >= 1 && g.IsInside(p.Add(Scale(k, d)))
    ensures g.IsInside(p.Add(d))
  {
    if d.x >= 0 { Bits.MulAtLeast(d.x, k); } else { Bits.MulAtLeast(-d.x, k); }
    if d.y >= 0 { Bits.MulAtLeast(d.y, k); } else { Bits.MulAtLeast(-d.y, k); }
    assert k * -d.x == -(k * d.x) && k * -d.y == -(k * d.y);
  }

  lemma ScaleSucc(j: int, d: Point)
    ensures Scale(j + 1, d) == Point(Scale(j, d).x + d.x, Scale(j, d).y + d.y)
  {
    assert (j + 1) * d.x == j * d.x + d.x;
    assert (j + 1) * d.y == j * d.y + d.y;
  }

  /** Every point of the walk is a whole number of steps on from `p`. */
  lemma {:induction false} RayOnly(g: Grid<char>, p: Point, d: Point, q: Point) returns (k: nat)
    requires g.IsInside(p) && d != Point(0, 0) && q in Ray(g, p, d)
    ensures q == p.Add(Scale(k, d))
    decreases Room(g, p, d)
  {
    if q == p {
      k := 0;
    } else {
      var n := p.Add(d);
      var j := RayOnly(g, n, d, q);
      k := j + 1;
      ScaleSucc(j, d);
    }
  }

  /** Every inside point a whole number of steps on from `p` is on the walk. */
  lemma {:induction false} RayHas(g: Grid<char>, p: Point, d: Point, k: nat)
    requires g.IsInside(p) && d != Point(0, 0) && g.IsInside(p.Add(Scale(k, d)))
    ensures p.Add(Scale(k, d)) in Ray(g, p, d)
    decreases Room(g, p, d)
  {
    if k > 0 {
      var n := p.Add(d);
      Between(g, p, d, k);
      ScaleSucc(k - 1, d);
      assert p.Add(Scale(k, d)) == n.Add(Scale(k - 1, d));
      RayHas(g, n, d, k - 1);
    }
  }

  /** The walk holds exactly the inside points a whole number of steps on from `p`. */
  lemma RayIff(g: Grid<char>, p: Point, d: Point, q: Point)
    requires g.IsInside(p) && d != Point(0, 0)
    ensures q in Ray(g, p, d) <==> g.IsInside(q) && exists k: nat :: q == p.Add(Scale(k, d))
  {
    if q in Ray(g, p, d) {
      var k := RayOnly(g, p, d, q);
    }
    if g.IsInside(q) && exists k: nat :: q == p.Add(Scale(k, d)) {
      var k: nat :| q == p.Add(Scale(k, d));
      RayHas(g, p, d, k);
    }
  }

  /** `antinodes_2`: the walk from `x` along `d = x - y`, then the walk from `y` back along `-d`. */
  function Antinodes2(g: Grid<char>, x: Point, y: Point): (r: seq<Point>)
    requires g.IsInside(x) && g.IsInside(y) && x != y
  {
    var d := x.Sub(y);
    Ray(g, x, d) + Ray(g, y, Point(-d.x, -d.y))
  }

  /** `j + 1` steps back from `x` along `x - y` are `j` steps on from `y` along `y - x`. */
  lemma Reflect(x: Point, y: Point, j: int)
    ensures x.Add(Scale(-j - 1, x.Sub(y))) == y.Add(Scale(j, Point(-x.Sub(y).x, -x.Sub(y).y)))
  {
    var d := x.Sub(y);
    assert (-j - 1) * d.x == j * -d.x - d.x;
    assert (-j - 1) * d.y == j * -d.y - d.y;
  }

  /** Each antinode of part two is `x + k (x - y)` for some whole `k`. */
  lemma Antinodes2Only(g: Grid<char>, x: Point, y: Point, q: Point) returns (k: int)
    requires g.IsInside(x) && g.IsInside(y) && x != y && q in Antinodes2(g, x, y)
    ensures q == x.Add(Scale(k, x.Sub(y)))
  {
    var d := x.Sub(y);
    var e := Point(-d.x, -d.y);
    if q in Ray(g, x, d) {
      var i := RayOnly(g, x, d, q);
      k := i;
    } else {
      assert q in Ray(g, y, e);
      var j := RayOnly(g, y, e, q);
      Reflect(x, y, j);
      k := -(j as int) - 1;
    }
  }

  /** Each inside point `x + k (x - y)` is an antinode of part two. */
  lemma Antinodes2Has(g: Grid<char>, x: Point, y: Point, k: int)
    requires g.IsInside(x) && g.IsInside(y) && x != y && g.IsInside(x.Add(Scale(k, x.Sub(y))))
    ensures x.Add(Scale(k, x.Sub(y))) in Antinodes2(g, x, y)
  {
    var d := x.Sub(y);
    var e := Point(-d.x, -d.y);
    if k >= 0 {
      RayHas(g, x, d, k);
    } else {
      Reflect(x, y, -k - 1);
      RayHas(g, y, e, -k - 1);
    }
  }

  /** The same antinodes whichever antenna of the pair comes first. */
  lemma Antinodes2Swap(g: Grid<char>, x: Point, y: Point, q: Point)
    requires g.IsInside(x) && g.IsInside(y) && x != y
    ensures q in Antinodes2(g, x, y) <==> q in Antinodes2(g, y, x)
  {
    var d := x.Sub(y);
    assert y.Sub(x) == Point(-d.x, -d.y);
    assert Point(-y.Sub(x).x, -y.Sub(x).y) == d;
  }

  /** The antinodes of part two are the inside points `x + k (x - y)` for every whole `k`. */
  lemma Antinodes2Iff(g: Grid<char>, x: Point, y: Point, q: Point)
    requires g.IsInside(x) && g.IsInside(y) && x != y
    ensures q in Antinodes2(g, x, y) <==> g.IsInside(q) && exists k: int :: q == x.Add(Scale(k, x.Sub(y)))
  {
    if q in Antinodes2(g, x, y) {
      var k := Antinodes2Only(g, x, y, q);
    }
    if g.IsInside(q) && exists k: int :: q == x.Add(Scale(k, x.Sub(y))) {
      var k: int :| q == x.Add(Scale(k, x.Sub(y)));
      Antinodes2Has(g, x, y, k);
    }
  }

  // ---------------------------------------------------------------- the count

  /** Every pair is of two distinct points inside the map, as `antinodes_2` needs to end. */
  predicate PairsOk(g: Grid<char>, prs: seq<(Point, Point)>)
  {
    forall k :: 0 <= k < |prs| ==> g.IsInside(prs[k].0) && g.IsInside(prs[k].1) && prs[k].0 != prs[k].1
  }

  /** The pairs of every antenna list are of distinct points inside the map. */
  predicate WellFormed(g: Grid<char>, ants: map<char, seq<Point>>)
  {
    forall c :: c in ants ==> PairsOk(g, Pairs(ants[c]))
  }

  /** The antinodes of the pair for the given part. */
  function Antinodes(g: Grid<char>, star: int, x: Point, y: Point): seq<Point>
    requires star == 1 || star == 2
    requires g.IsInside(x) && g.IsInside(y) && x != y
  {
    if star == 1 then Antinodes1(g, x, y) else Antinodes2(g, x, y)
  }

  /** The `flat_map` of the antinodes over a list of pairs. */
  function AntinodeSeq(g: Grid<char>, star: int, prs: seq<(Point, Point)>): (r: seq<Point>)
    requires star == 1 || star == 2
    requires PairsOk(g, prs)
    ensures forall q :: q in r <==> exists k :: 0 <= k < |prs| && q in Antinodes(g, star, prs[k].0, prs[k].1)
  {
    if prs == [] then []
    else
      var init := prs[..|prs| - 1];
      var last := prs[|prs| - 1];
      assert forall k :: 0 <= k < |init| ==> init[k] == prs[k];
      AntinodeSeq(g, star, init) + Antinodes(g, star, last.0, last.1)
  }

  /** The distinct antinodes of all pairs of all frequencies, the `HashSet` of `star`. */
  function AntinodeSet(g: Grid<char>, ants: map<char, seq<Point>>, star: int): set<Point>
    requires star == 1 || star == 2
    requires WellFormed(g, ants)
  {
    set c, q | c in ants && q in AntinodeSeq(g, star, Pairs(ants[c])) :: q
  }

  /** `star`: the number of distinct antinodes; any part other than one or two panics. */
  function Star(g: Grid<char>, ants: map<char, seq<Point>>, star: int): (r: nat)
    requires star == 1 || star == 2
    requires WellFormed(g, ants)
    ensures 0 <= g.dx && 0 <= g.dy ==> r <= g.dx * g.dy
  {
    AntinodesInside(g, ants, star);
    if 0 <= g.dx && 0 <= g.dy then
      InsideCard(g, AntinodeSet(g, ants, star));
      |AntinodeSet(g, ants, star)|
    else
      |AntinodeSet(g, ants, star)|
  }

  /** Every antinode counted is inside the map. */
  lemma AntinodesInside(g: Grid<char>, ants: map<char, seq<Point>>, star: int)
    requires star == 1 || star == 2
    requires WellFormed(g, ants)
    ensures forall q :: q in AntinodeSet(g, ants, star) ==> g.IsInside(q)
  {
    forall q | q in AntinodeSet(g, ants, star) ensures g.IsInside(q) {
      var c, x, y := InSetOnly(g, ants, star, q);
      if star == 1 {
        Antinodes1Iff(g, x, y, q);
      }
    }
  }

  /** A set of inside points has at most `dx * dy` members. */
  lemma InsideCard(g: Grid<char>, s: set<Point>)
    requires 0 <= g.dx && 0 <= g.dy
    requires forall q :: q in s ==> g.IsInside(q)
    ensures |s| <= g.dx * g.dy
  {
    var ps := g.Positions();
    forall q | q in s ensures q in ps {
      g.PositionsComplete(q);
    }
    SeqSetCard(ps);
    var all := set p | p in ps;
    assert all == s + (all - s);
  }

  /** A sequence has at most as many distinct members as entries. */
  lemma {:induction false} SeqSetCard(ps: seq<Point>)
    ensures |set p | p in ps| <= |ps|
  {
    if ps != [] {
      SeqSetCard(ps[1..]);
      assert (set p | p in ps) == {ps[0]} + (set p | p in ps[1..]);
    }
  }

  /** The antennas that `find_antennas` collects are well formed. */
  lemma FindAntennasWellFormed(g: Grid<char>)
    requires g.Valid()
    ensures WellFormed(g, FindAntennas(g))
  {
    var m := FindAntennas(g);
    var ps := g.Positions();
    forall c | c in m ensures PairsOk(g, Pairs(m[c])) {
      OfKindDistinct(g, ps, c);
      forall p | p in m[c] ensures g.IsInside(p) {
        var a :| 0 <= a < |ps| && ps[a] == p;
      }
      PairsOfDistinct(g, m[c]);
    }
  }

  /** The pairs of distinct points inside the map are of distinct points inside the map. */
  lemma PairsOfDistinct(g: Grid<char>, locs: seq<Point>)
    requires forall p :: p in locs ==> g.IsInside(p)
    requires forall i, j :: 0 <= i < j < |locs| ==> locs[i] != locs[j]
    ensures PairsOk(g, Pairs(locs))
  {
    var prs := Pairs(locs);
    forall k | 0 <= k < |prs| ensures g.IsInside(prs[k].0) && g.IsInside(prs[k].1) && prs[k].0 != prs[k].1 {
      assert prs[k] in prs;
      var i, j :| 0 <= i < j < |locs| && prs[k] == (locs[i], locs[j]);
    }
  }

  /** Positions are distinct, so the points of one kind are too. */
  lemma {:induction false} OfKindDistinct(g: Grid<char>, ps: seq<Point>, c: char)
    requires g.Valid() && ps == g.Positions()
    ensures forall i, j :: 0 <= i < j < |OfKind(g, ps, c)| ==> OfKind(g, ps, c)[i] != OfKind(g, ps, c)[j]
  {
    forall k, l | 0 <= k < l < |ps| ensures ps[k] != ps[l] {
      assert g.ToIndex(ps[k]) == Some(k) && g.ToIndex(ps[l]) == Some(l);
    }
    DistinctFilter(g, ps, c);
  }

  lemma {:induction false} DistinctFilter(g: Grid<char>, ps: seq<Point>, c: char)
    requires g.Valid() && forall k, l :: 0 <= k < l < |ps| ==> ps[k] != ps[l]
    ensures forall i, j :: 0 <= i < j < |OfKind(g, ps, c)| ==> OfKind(g, ps, c)[i] != OfKind(g, ps, c)[j]
  {
    if ps != [] {
      var init := ps[..|ps| - 1];
      var p := ps[|ps| - 1];
      DistinctFilter(g, init, c);
      assert p !in init;
    }
  }

  /** Two distinct antennas of one frequency. */
  predicate SameFrequency(g: Grid<char>, a: Point, b: Point)
    reads g
    requires g.Valid()
  {
    a != b && g.IsInside(a) && g.IsInside(b) && g.Get(a) == g.Get(b) && IsAsciiAlphanumeric(g.Get(a).value)
  }

  /** With `x` and `y` in one antenna list, one of them comes first and they form a pair. */
  lemma PairedSomeWay(ants: map<char, seq<Point>>, c: char, a: Point, b: Point)
    requires c in ants && a in ants[c] && b in ants[c] && a != b
    ensures (a, b) in Pairs(ants[c]) || (b, a) in Pairs(ants[c])
  {
    var i :| 0 <= i < |ants[c]| && ants[c][i] == a;
    var j :| 0 <= j < |ants[c]| && ants[c][j] == b;
    if i < j {
      assert (a, b) == (ants[c][i], ants[c][j]);
    } else {
      assert (b, a) == (ants[c][j], ants[c][i]);
    }
  }

  /** An antinode counted comes from a pair of two antennas in one list. */
  lemma InSetOnly(g: Grid<char>, ants: map<char, seq<Point>>, star: int, q: Point)
    returns (c: char, x: Point, y: Point)
    requires star == 1 || star == 2
    requires WellFormed(g, ants) && q in AntinodeSet(g, ants, star)
    ensures c in ants && x in ants[c] && y in ants[c]
    ensures g.IsInside(x) && g.IsInside(y) && x != y && q in Antinodes(g, star, x, y)
  {
    var c' :| c' in ants && q in AntinodeSeq(g, star, Pairs(ants[c']));
    c := c';
    var prs := Pairs(ants[c]);
    var k :| 0 <= k < |prs| && q in Antinodes(g, star, prs[k].0, prs[k].1);
    assert prs[k] in prs;
    var i, j :| 0 <= i < j < |ants[c]| && prs[k] == (ants[c][i], ants[c][j]);
    x, y := prs[k].0, prs[k].1;
  }

  /** Every antinode of a pair of one list is counted. */
  lemma InSetHas(g: Grid<char>, ants: map<char, seq<Point>>, star: int, c: char, x: Point, y: Point, q: Point)
    requires star == 1 || star == 2
    requires WellFormed(g, ants) && c in ants && ((x, y) in Pairs(ants[c]) || (y, x) in Pairs(ants[c]))
    requires g.IsInside(x) && g.IsInside(y) && x != y
    requires q in Antinodes(g, star, x, y) && q in Antinodes(g, star, y, x)
    ensures q in AntinodeSet(g, ants, star)
  {
    var prs := Pairs(ants[c]);
    var k :| 0 <= k < |prs| && (prs[k] == (x, y) || prs[k] == (y, x));
    assert q in AntinodeSeq(g, star, prs);
  }

  /** The antennas listed under `c` are exactly the inside points holding `c`, for alphanumeric `c`. */
  lemma FoundIff(g: Grid<char>, c: char, a: Point)
    requires g.Valid()
    ensures (c in FindAntennas(g) && a in FindAntennas(g)[c]) <==>
      IsAsciiAlphanumeric(c) && g.IsInside(a) && g.Get(a) == Some(c)
  {
    var m := FindAntennas(g);
    var ps := g.Positions();
    if IsAsciiAlphanumeric(c) && g.IsInside(a) && g.Get(a) == Some(c) {
      g.PositionsComplete(a);
      assert a in ps;
      assert a in OfKind(g, ps, c);
    }
  }

  /**
   * Part one counts the inside points in line with two antennas of one frequency,
   * twice as far from one as from the other.
   */
  lemma Star1Meaning(g: Grid<char>, q: Point)
    requires g.Valid() && WellFormed(g, FindAntennas(g))
    ensures q in AntinodeSet(g, FindAntennas(g), 1) <==>
      g.IsInside(q) && exists a, b :: SameFrequency(g, a, b) && q.Sub(a) == Scale(2, q.Sub(b))
  {
    var m := FindAntennas(g);
    if q in AntinodeSet(g, m, 1) {
      var c, x, y := InSetOnly(g, m, 1, q);
      FoundIff(g, c, x);
      FoundIff(g, c, y);
      Antinodes1Iff(g, x, y, q);
      if q.Sub(x) == Scale(2, q.Sub(y)) {
        assert SameFrequency(g, x, y);
      } else {
        assert SameFrequency(g, y, x);
      }
    }
    if g.IsInside(q) && exists a, b :: SameFrequency(g, a, b) && q.Sub(a) == Scale(2, q.Sub(b)) {
      var a, b :| SameFrequency(g, a, b) && q.Sub(a) == Scale(2, q.Sub(b));
      var c := g.Get(a).value;
      FoundIff(g, c, a);
      FoundIff(g, c, b);
      PairedSomeWay(m, c, a, b);
      Antinodes1Iff(g, a, b, q);
      Antinodes1Iff(g, b, a, q);
      InSetHas(g, m, 1, c, a, b, q);
    }
  }

  /** Part two counts the inside points `a + k (a - b)` for two antennas `a`, `b` of one frequency. */
  lemma Star2Meaning(g: Grid<char>, q: Point)
    requires g.Valid() && WellFormed(g, FindAntennas(g))
    ensures q in AntinodeSet(g, FindAntennas(g), 2) <==>
      g.IsInside(q) && exists a, b, k: int :: SameFrequency(g, a, b) && q == a.Add(Scale(k, a.Sub(b)))
  {
    var m := FindAntennas(g);
    if q in AntinodeSet(g, m, 2) {
      var c, x, y := InSetOnly(g, m, 2, q);
      FoundIff(g, c, x);
      FoundIff(g, c, y);
      var t := Antinodes2Only(g, x, y, q);
      assert SameFrequency(g, x, y);
      assert g.IsInside(q);
    }
    if g.IsInside(q) && exists a, b, k: int :: SameFrequency(g, a, b) && q == a.Add(Scale(k, a.Sub(b))) {
      var a, b, k: int :| SameFrequency(g, a, b) && q == a.Add(Scale(k, a.Sub(b)));
      Star2Has(g, a, b, k);
    }
  }

  /** An inside point `a + k (a - b)` for two antennas of one frequency is counted in part two. */
  lemma Star2Has(g: Grid<char>, a: Point, b: Point, k: int)
    requires g.Valid() && WellFormed(g, FindAntennas(g))
    requires SameFrequency(g, a, b) && g.IsInside(a.Add(Scale(k, a.Sub(b))))
    ensures a.Add(Scale(k, a.Sub(b))) in AntinodeSet(g, FindAntennas(g), 2)
  {
    var m := FindAntennas(g);
    var q := a.Add(Scale(k, a.Sub(b)));
    var c := g.Get(a).value;
    FoundIff(g, c, a);
    FoundIff(g, c, b);
    PairedSomeWay(m, c, a, b);
    Antinodes2Has(g, a, b, k);
    Antinodes2Swap(g, a, b, q);
    InSetHas(g, m, 2, c, a, b, q);
  }
}

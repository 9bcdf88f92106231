/**
 * Day 10: hiking trails on a height map of digits. A trail starts at a `'0'`, climbs
 * exactly one height per step to a neighbouring cell and ends at a `'9'`. A trailhead
 * scores the number of distinct `'9'` cells it reaches and the number of trails from it.
 */
module Day10 {
  import opened Wrappers
  import opened Grids

  /** The digit of height `k`. */
  function Height(k: nat): (c: char)
    requires k <= 9
    ensures '0' <= c <= '9'
  {
    ('0' as int + k) as char
  }

  /** The height of a digit. */
  function Level(c: char): nat
    requires '0' <= c <= '9'
  {
    c as int - '0' as int
  }

  // ---------------------------------------------------------------- the trails from a cell

  /**
   * The ends of the trails that continue from `p` at height `k < 9`, one element per
   * trail: the same `'9'` cell appears once for every trail that reaches it.
   */
  function Ends(g: Grid<char>, p: Point, k: nat): multiset<Point>
    reads g
    requires g.Valid() && k < 9
    decreases 9 - k, 5
  {
    StepEnds(g, p, k, 4)
  }

  /** The trail ends through the first `i` of the four steps from `p`. */
  function StepEnds(g: Grid<char>, p: Point, k: nat, i: nat): multiset<Point>
    reads g
    requires g.Valid() && k < 9 && i <= 4
    decreases 9 - k, i
  {
    if i == 0 then multiset{} else StepEnds(g, p, k, i - 1) + Reach(g, p.Add(STEPS[i - 1]), k + 1)
  }

  /** Stepping onto `q`, which needs height `k`: a `'9'` ends one trail, a lower height continues. */
  function Reach(g: Grid<char>, q: Point, k: nat): multiset<Point>
    reads g
    requires g.Valid() && 1 <= k <= 9
    decreases 9 - k, 6
  {
    if g.Get(q) != Some(Height(k)) then multiset{}
    else if k == 9 then multiset{q}
    else Ends(g, q, k)
  }

  /** A trail from height `k`: adjacent cells one height apart, from height `k` up to a `'9'`. */
  ghost predicate Climb(g: Grid<char>, ps: seq<Point>, k: nat)
    reads g
    requires g.Valid()
  {
    k <= 9 && |ps| == 10 - k
    && (forall i :: 0 <= i < |ps| ==> g.Get(ps[i]) == Some(Height(k + i)))
    && (forall i :: 0 <= i < |ps| - 1 ==> Adjacent(ps[i], ps[i + 1]))
  }

  /** A trail end through the first `i` steps is a trail end through one of them. */
  lemma {:induction false} StepEndsHas(g: Grid<char>, p: Point, k: nat, i: nat, q: Point)
    requires g.Valid() && k < 9 && i <= 4
    ensures q in StepEnds(g, p, k, i) <==> exists j :: 0 <= j < i && q in Reach(g, p.Add(STEPS[j]), k + 1)
  {
    if i > 0 {
      StepEndsHas(g, p, k, i - 1, q);
      var r := Reach(g, p.Add(STEPS[i - 1]), k + 1);
      assert StepEnds(g, p, k, i) == StepEnds(g, p, k, i - 1) + r;
      if q in r {
        assert 0 <= i - 1 < i && q in Reach(g, p.Add(STEPS[i - 1]), k + 1);
      }
    }
  }

  /** Every trail end is the last cell of a trail from a cell of height `k`. */
  lemma {:induction false} EndsHaveClimbs(g: Grid<char>, p: Point, k: nat, q: Point)
    requires g.Valid() && k < 9 && g.Get(p) == Some(Height(k)) && q in Ends(g, p, k)
    ensures exists ps :: Climb(g, ps, k) && ps[0] == p && ps[|ps| - 1] == q
    decreases 9 - k
  {
    StepEndsHas(g, p, k, 4, q);
    var j :| 0 <= j < 4 && q in Reach(g, p.Add(STEPS[j]), k + 1);
    var r := p.Add(STEPS[j]);
    StepIsAdjacent(p, j);
    if k + 1 == 9 {
      assert g.Get(q) == Some(Height(9));
      assert Climb(g, [q], 9);
    } else {
      EndsHaveClimbs(g, r, k + 1, q);
    }
    ClimbCons(g, p, r, q, k);
  }

  /** A cell of height `k` next to the start of a trail from height `k + 1` starts a trail. */
  lemma ClimbCons(g: Grid<char>, p: Point, r: Point, q: Point, k: nat)
    requires g.Valid() && k < 9 && g.Get(p) == Some(Height(k)) && Adjacent(p, r)
    requires exists ps :: Climb(g, ps, k + 1) && ps[0] == r && ps[|ps| - 1] == q
    ensures exists ps :: Climb(g, ps, k) && ps[0] == p && ps[|ps| - 1] == q
  {
    var ps :| Climb(g, ps, k + 1) && ps[0] == r && ps[|ps| - 1] == q;
    var ps' := [p] + ps;
    forall i | 1 <= i < |ps'|
      ensures g.Get(ps'[i]) == Some(Height(k + i))
    {
      assert ps'[i] == ps[i - 1] && k + i == k + 1 + (i - 1);
    }
    assert Climb(g, ps', k) && ps'[|ps'| - 1] == q;
  }

  /** The last cell of every trail from `p` is one of its trail ends. */
  lemma {:induction false} ClimbsReachEnds(g: Grid<char>, ps: seq<Point>, k: nat)
    requires g.Valid() && k < 9 && Climb(g, ps, k)
    ensures ps[|ps| - 1] in Ends(g, ps[0], k)
    decreases 9 - k
  {
    var p, r, q := ps[0], ps[1], ps[|ps| - 1];
    assert Adjacent(p, r);
    var j :| 0 <= j < 4 && r.Sub(p) == STEPS[j];
    assert r == p.Add(STEPS[j]);
    assert g.Get(r) == Some(Height(k + 1));
    if k + 1 < 9 {
      var rest := ps[1..];
      assert forall i :: 0 <= i < |rest| ==> rest[i] == ps[i + 1] && Height(k + 1 + i) == Height(k + (i + 1));
      assert Climb(g, rest, k + 1);
      ClimbsReachEnds(g, rest, k + 1);
      assert rest[|rest| - 1] == q;
    }
    StepEndsHas(g, p, k, 4, q);
  }

  /** The trail ends of a trailhead are exactly the `'9'` cells its trails reach. */
  lemma EndsAreClimbs(g: Grid<char>, p: Point, q: Point)
    requires g.Valid() && g.Get(p) == Some('0')
    ensures q in Ends(g, p, 0) <==> exists ps :: Climb(g, ps, 0) && ps[0] == p && ps[|ps| - 1] == q
  {
    if q in Ends(g, p, 0) {
      EndsHaveClimbs(g, p, 0, q);
    }
    if exists ps :: Climb(g, ps, 0) && ps[0] == p && ps[|ps| - 1] == q {
      var ps :| Climb(g, ps, 0) && ps[0] == p && ps[|ps| - 1] == q;
      ClimbsReachEnds(g, ps, 0);
    }
  }

  // ---------------------------------------------------------------- counting the trails

  /** Every trail from `p` at height `k`, built one step at a time. */
  ghost function Trails(g: Grid<char>, p: Point, k: nat): set<seq<Point>>
    reads g
    requires g.Valid() && k <= 9
    decreases 9 - k, 5
  {
    if g.Get(p) != Some(Height(k)) then {}
    else if k == 9 then {[p]}
    else StepTrails(g, p, k, 4)
  }

  /** The trails on from `p` at height `k < 9` whose first step is one of the first `i` of `STEPS`. */
  ghost function StepTrails(g: Grid<char>, p: Point, k: nat, i: nat): set<seq<Point>>
    reads g
    requires g.Valid() && k < 9 && i <= 4
    decreases 9 - k, i
  {
    if i == 0 then {} else StepTrails(g, p, k, i - 1) + Prepend(p, Trails(g, p.Add(STEPS[i - 1]), k + 1))
  }

  /** `p` put in front of each trail of `ts`. */
  ghost function Prepend(p: Point, ts: set<seq<Point>>): set<seq<Point>>
  {
    set t | t in ts :: [p] + t
  }

  /** The trails of `ts` that end at `q`. */
  ghost function EndingAt(ts: set<seq<Point>>, q: Point): set<seq<Point>>
  {
    set t | t in ts && |t| > 0 && t[|t| - 1] == q
  }

  lemma PrependHas(p: Point, ts: set<seq<Point>>, t: seq<Point>)
    ensures t in Prepend(p, ts) <==> |t| > 0 && t[0] == p && t[1..] in ts
  {
    if t in Prepend(p, ts) {
      var u :| u in ts && t == [p] + u;
      assert t[1..] == u;
    }
    if |t| > 0 && t[0] == p && t[1..] in ts {
      assert t == [p] + t[1..];
    }
  }

  /** Putting `p` in front loses no trail: it is one to one. */
  lemma {:induction false} PrependCard(p: Point, ts: set<seq<Point>>)
    ensures |Prepend(p, ts)| == |ts|
    decreases |ts|
  {
    if ts != {} {
      var u :| u in ts;
      var rest := ts - {u};
      PrependCard(p, rest);
      assert Prepend(p, ts) == Prepend(p, rest) + {[p] + u};
      PrependHas(p, rest, [p] + u);
      assert ([p] + u)[1..] == u;
    }
  }

  /** The trails of `Prepend(p, ts)` ending at `q` are those of `ts`, prepended. */
  lemma PrependEnding(p: Point, ts: set<seq<Point>>, q: Point)
    requires forall t :: t in ts ==> |t| > 0
    ensures EndingAt(Prepend(p, ts), q) == Prepend(p, EndingAt(ts, q))
  {
    forall t ensures t in EndingAt(Prepend(p, ts), q) <==> t in Prepend(p, EndingAt(ts, q)) {
      PrependHas(p, ts, t);
      PrependHas(p, EndingAt(ts, q), t);
      if |t| > 1 {
        assert t[1..][|t| - 2] == t[|t| - 1];
      }
    }
  }

  /** The trails from `r` at height `k` all have `10 - k` cells and start at `r`. */
  lemma TrailsShape(g: Grid<char>, r: Point, k: nat)
    requires g.Valid() && k <= 9
    ensures forall t :: t in Trails(g, r, k) ==> |t| == 10 - k && t[0] == r
    decreases 9 - k, 1
  {
    if g.Get(r) == Some(Height(k)) && k < 9 {
      StepTrailsShape(g, r, k, 4);
    }
  }

  /** The trails on from `p` through the first `i` steps start with one of those steps. */
  lemma {:induction false} StepTrailsShape(g: Grid<char>, p: Point, k: nat, i: nat)
    requires g.Valid() && k < 9 && i <= 4
    ensures forall t: seq<Point> :: t in StepTrails(g, p, k, i) ==>
              |t| == 10 - k && t[0] == p && t[1].Sub(p) in STEPS[..i] && t[1..] in Trails(g, t[1], k + 1)
    decreases 9 - k, 0, i
  {
    if i > 0 {
      var r := p.Add(STEPS[i - 1]);
      StepTrailsShape(g, p, k, i - 1);
      TrailsShape(g, r, k + 1);
      assert r.Sub(p) == STEPS[i - 1];
      forall t: seq<Point> | t in StepTrails(g, p, k, i)
        ensures |t| == 10 - k && t[0] == p && t[1].Sub(p) in STEPS[..i] && t[1..] in Trails(g, t[1], k + 1)
      {
        PrependHas(p, Trails(g, r, k + 1), t);
        if t !in StepTrails(g, p, k, i - 1) {
          assert t[1..][0] == t[1];
          assert STEPS[..i][i - 1] == STEPS[i - 1];
        } else {
          assert t[1].Sub(p) in STEPS[..i - 1];
        }
      }
    }
  }

  /** Trails through the first `i - 1` steps and trails through step `i - 1` are different trails. */
  lemma StepTrailsDisjoint(g: Grid<char>, p: Point, k: nat, i: nat)
    requires g.Valid() && k < 9 && 0 < i <= 4
    ensures StepTrails(g, p, k, i - 1) !! Prepend(p, Trails(g, p.Add(STEPS[i - 1]), k + 1))
  {
    var r := p.Add(STEPS[i - 1]);
    StepTrailsShape(g, p, k, i - 1);
    TrailsShape(g, r, k + 1);
    assert r.Sub(p) == STEPS[i - 1];
    assert STEPS[i - 1] !in STEPS[..i - 1];
    var before, ts := StepTrails(g, p, k, i - 1), Trails(g, r, k + 1);
    forall t | t in before ensures t !in Prepend(p, ts) {
      PrependHas(p, ts, t);
    }
  }

  /** Stepping onto `r` at height `k` reaches each cell `q` once per trail from `r` ending at `q`. */
  lemma {:induction false} ReachCounts(g: Grid<char>, r: Point, k: nat, q: Point)
    requires g.Valid() && 1 <= k <= 9
    ensures Reach(g, r, k)[q] == |EndingAt(Trails(g, r, k), q)|
    decreases 9 - k, 1
  {
    if g.Get(r) != Some(Height(k)) {
      assert EndingAt({}, q) == {};
    } else if k == 9 {
      if q == r {
        assert EndingAt({[r]}, q) == {[r]};
      } else {
        assert EndingAt({[r]}, q) == {};
      }
    } else {
      StepCounts(g, r, k, 4, q);
    }
  }

  /** `StepEnds` holds each cell as often as `StepTrails` has trails ending there. */
  lemma {:induction false} StepCounts(g: Grid<char>, p: Point, k: nat, i: nat, q: Point)
    requires g.Valid() && k < 9 && i <= 4
    ensures StepEnds(g, p, k, i)[q] == |EndingAt(StepTrails(g, p, k, i), q)|
    decreases 9 - k, 0, i
  {
    if i == 0 {
      assert EndingAt({}, q) == {};
    } else {
      var r := p.Add(STEPS[i - 1]);
      StepCounts(g, p, k, i - 1, q);
      ReachCounts(g, r, k + 1, q);
      TrailSplitAt(g, p, k, i, q);
      AddAt(StepEnds(g, p, k, i), StepEnds(g, p, k, i - 1), Reach(g, r, k + 1),
        |EndingAt(StepTrails(g, p, k, i), q)|, |EndingAt(StepTrails(g, p, k, i - 1), q)|,
        |EndingAt(Trails(g, r, k + 1), q)|, q);
    }
  }

  /** Stepping onto `r` at height `k` reaches as many ends as there are trails from `r`. */
  lemma {:induction false} ReachTotal(g: Grid<char>, r: Point, k: nat)
    requires g.Valid() && 1 <= k <= 9
    ensures |Reach(g, r, k)| == |Trails(g, r, k)|
    decreases 9 - k, 1
  {
    if g.Get(r) == Some(Height(k)) && k < 9 {
      StepTotal(g, r, k, 4);
    }
  }

  /** `StepEnds` has as many ends as `StepTrails` has trails. */
  lemma {:induction false} StepTotal(g: Grid<char>, p: Point, k: nat, i: nat)
    requires g.Valid() && k < 9 && i <= 4
    ensures |StepEnds(g, p, k, i)| == |StepTrails(g, p, k, i)|
    decreases 9 - k, 0, i
  {
    if i > 0 {
      var r := p.Add(STEPS[i - 1]);
      StepTotal(g, p, k, i - 1);
      ReachTotal(g, r, k + 1);
      TrailSplitTotal(g, p, k, i);
      AddTotal(StepEnds(g, p, k, i), StepEnds(g, p, k, i - 1), Reach(g, r, k + 1),
        |StepTrails(g, p, k, i)|, |StepTrails(g, p, k, i - 1)|, |Trails(g, r, k + 1)|);
    }
  }

  /** A sum of ends holds `q` as often as its parts together. */
  lemma AddAt(e: multiset<Point>, e0: multiset<Point>, e1: multiset<Point>, n: nat, n0: nat, n1: nat, q: Point)
    requires e == e0 + e1 && n == n0 + n1 && e0[q] == n0 && e1[q] == n1
    ensures e[q] == n
  {
  }

  /** A sum of ends is as large as its parts together. */
  lemma AddTotal(e: multiset<Point>, e0: multiset<Point>, e1: multiset<Point>, n: nat, n0: nat, n1: nat)
    requires e == e0 + e1 && n == n0 + n1 && |e0| == n0 && |e1| == n1
    ensures |e| == n
  {
  }

  /** The trails through the first `i` steps ending at `q`: those through the first `i - 1`, and those of step `i - 1`. */
  lemma TrailSplitAt(g: Grid<char>, p: Point, k: nat, i: nat, q: Point)
    requires g.Valid() && k < 9 && 0 < i <= 4
    ensures |EndingAt(StepTrails(g, p, k, i), q)| ==
      |EndingAt(StepTrails(g, p, k, i - 1), q)| + |EndingAt(Trails(g, p.Add(STEPS[i - 1]), k + 1), q)|
  {
    var r := p.Add(STEPS[i - 1]);
    var before, ts := StepTrails(g, p, k, i - 1), Trails(g, r, k + 1);
    TrailsShape(g, r, k + 1);
    StepTrailsDisjoint(g, p, k, i);
    PrependEnding(p, ts, q);
    PrependCard(p, EndingAt(ts, q));
    UnionCounts(before, Prepend(p, ts), q);
  }

  /** The trails through the first `i` steps: those through the first `i - 1`, and as many again as step `i - 1` has. */
  lemma TrailSplitTotal(g: Grid<char>, p: Point, k: nat, i: nat)
    requires g.Valid() && k < 9 && 0 < i <= 4
    ensures |StepTrails(g, p, k, i)| == |StepTrails(g, p, k, i - 1)| + |Trails(g, p.Add(STEPS[i - 1]), k + 1)|
  {
    var r := p.Add(STEPS[i - 1]);
    var before, ts := StepTrails(g, p, k, i - 1), Trails(g, r, k + 1);
    StepTrailsDisjoint(g, p, k, i);
    PrependCard(p, ts);
    assert |before + Prepend(p, ts)| == |before| + |Prepend(p, ts)|;
  }

  /** Disjoint trail sets add up, in total and for each end. */
  lemma UnionCounts(a: set<seq<Point>>, b: set<seq<Point>>, q: Point)
    requires a !! b
    ensures |a + b| == |a| + |b|
    ensures |EndingAt(a + b, q)| == |EndingAt(a, q)| + |EndingAt(b, q)|
  {
    assert EndingAt(a + b, q) == EndingAt(a, q) + EndingAt(b, q);
    assert EndingAt(a, q) !! EndingAt(b, q);
  }

  /** The trails that `Trails` builds are exactly the climbs from `p`. */
  lemma {:induction false} TrailsAreClimbs(g: Grid<char>, p: Point, k: nat, t: seq<Point>)
    requires g.Valid() && k <= 9
    ensures t in Trails(g, p, k) <==> |t| > 0 && t[0] == p && Climb(g, t, k)
    decreases 9 - k
  {
    if g.Get(p) == Some(Height(k)) && k < 9 {
      StepTrailsShape(g, p, k, 4);
      assert STEPS[..4] == STEPS;
      if |t| > 1 && t[0] == p {
        var r := t[1];
        if r.Sub(p) in STEPS {
          var j :| 0 <= j < 4 && STEPS[j] == r.Sub(p);
          assert r == p.Add(STEPS[j]);
          TrailsAreClimbs(g, r, k + 1, t[1..]);
          ClimbSplit(g, t, k);
          StepTrailsHas(g, p, k, 4, j, t);
        } else {
          assert !Adjacent(t[0], t[1]);
        }
      }
    } else if k == 9 && g.Get(p) == Some(Height(k)) {
      if |t| > 0 && t[0] == p && Climb(g, t, k) {
        assert t == [p];
      }
    }
  }

  /** A climb of two or more cells is a step from its first cell onto a climb from the next. */
  lemma ClimbSplit(g: Grid<char>, t: seq<Point>, k: nat)
    requires g.Valid() && k < 9 && |t| > 1 && g.Get(t[0]) == Some(Height(k))
    ensures Climb(g, t, k) <==> Adjacent(t[0], t[1]) && Climb(g, t[1..], k + 1)
  {
    var rest := t[1..];
    if Climb(g, t, k) {
      forall i | 0 <= i < |rest| ensures g.Get(rest[i]) == Some(Height(k + 1 + i)) {
        assert rest[i] == t[i + 1];
      }
      forall i | 0 <= i < |rest| - 1 ensures Adjacent(rest[i], rest[i + 1]) {
        assert rest[i] == t[i + 1] && rest[i + 1] == t[i + 2];
      }
    }
    if Adjacent(t[0], t[1]) && Climb(g, rest, k + 1) {
      forall i | 1 <= i < |t| ensures g.Get(t[i]) == Some(Height(k + i)) {
        assert t[i] == rest[i - 1];
      }
      forall i | 1 <= i < |t| - 1 ensures Adjacent(t[i], t[i + 1]) {
        assert t[i] == rest[i - 1] && t[i + 1] == rest[i];
      }
    }
  }

  /** A trail whose first step is step `j < i` is among the trails through the first `i` steps. */
  lemma {:induction false} StepTrailsHas(g: Grid<char>, p: Point, k: nat, i: nat, j: nat, t: seq<Point>)
    requires g.Valid() && k < 9 && j < i <= 4 && |t| > 1 && t[0] == p && t[1] == p.Add(STEPS[j])
    ensures t in StepTrails(g, p, k, i) <==> t[1..] in Trails(g, t[1], k + 1)
    decreases i
  {
    var r := p.Add(STEPS[i - 1]);
    PrependHas(p, Trails(g, r, k + 1), t);
    if j < i - 1 {
      StepTrailsHas(g, p, k, i - 1, j, t);
      StepTrailsDisjoint(g, p, k, i);
      if t[1..] in Trails(g, r, k + 1) {
        TrailsShape(g, r, k + 1);
        assert t[1..][0] == t[1];
        StepsDistinct(p, j, i - 1);
      }
    } else {
      StepTrailsShape(g, p, k, i - 1);
    }
  }

  /** Different steps lead to different cells. */
  lemma StepsDistinct(p: Point, j: nat, i: nat)
    requires j < 4 && i < 4 && j != i
    ensures p.Add(STEPS[j]) != p.Add(STEPS[i])
  {
    assert p.Add(STEPS[j]).Sub(p) == STEPS[j] && p.Add(STEPS[i]).Sub(p) == STEPS[i];
  }

  /**
   * The trail ends of a trailhead `p` count trails: `q` appears in them once for every
   * trail from `p` that ends at `q`, and there are as many ends as trails, where
   * `Trails(g, p, 0)` is exactly the set of climbs from `p`.
   */
  lemma EndsCountTrails(g: Grid<char>, p: Point, q: Point)
    requires g.Valid() && g.Get(p) == Some('0')
    ensures forall t :: t in Trails(g, p, 0) <==> |t| > 0 && t[0] == p && Climb(g, t, 0)
    ensures Ends(g, p, 0)[q] == |EndingAt(Trails(g, p, 0), q)|
    ensures |Ends(g, p, 0)| == |Trails(g, p, 0)|
  {
    assert Height(0) == '0';
    forall t ensures t in Trails(g, p, 0) <==> |t| > 0 && t[0] == p && Climb(g, t, 0) {
      TrailsAreClimbs(g, p, 0, t);
    }
    StepCounts(g, p, 0, 4, q);
    StepTotal(g, p, 0, 4);
  }

  /** The score of a trailhead: the distinct `'9'` cells reached and the number of trails. */
  function Score(g: Grid<char>, p: Point): (nat, nat)
    reads g
    requires g.Valid()
  {
    if g.Get(p) != Some('0') then (0, 0)
    else (Distinct(Ends(g, p, 0)), |Ends(g, p, 0)|)
  }

  /** The second score of a trailhead is its number of trails, the first the number of their distinct ends. */
  lemma ScoreCountsTrails(g: Grid<char>, p: Point)
    requires g.Valid() && g.Get(p) == Some('0')
    ensures Score(g, p).1 == |Trails(g, p, 0)|
    ensures Score(g, p).0 == |set t | t in Trails(g, p, 0) && |t| > 0 :: t[|t| - 1]|
  {
    EndsCountTrails(g, p, p);
    var ts := Trails(g, p, 0);
    forall q ensures q in Ends(g, p, 0) <==> q in set t | t in ts && |t| > 0 :: t[|t| - 1] {
      EndsCountTrails(g, p, q);
      if q in Ends(g, p, 0) {
        assert EndingAt(ts, q) != {};
        var t :| t in EndingAt(ts, q);
      }
      if q in set t | t in ts && |t| > 0 :: t[|t| - 1] {
        var t :| t in ts && |t| > 0 && t[|t| - 1] == q;
        assert t in EndingAt(ts, q);
      }
    }
    assert (set x | x in Ends(g, p, 0)) == set t | t in ts && |t| > 0 :: t[|t| - 1];
  }

  /** The number of distinct elements of `m`: the entries of a map from element to count. */
  function Distinct<T>(m: multiset<T>): nat
  {
    |set x | x in m|
  }

  // ---------------------------------------------------------------- the worklist

  /** A work item: a cell and its height, below `'9'`. */
  predicate Pending(work: seq<(Point, char)>)
  {
    forall i :: 0 <= i < |work| ==> '0' <= work[i].1 <= '8'
  }

  /** The trail ends still to come from the work items. */
  function WorkEnds(g: Grid<char>, work: seq<(Point, char)>): multiset<Point>
    reads g
    requires g.Valid() && Pending(work)
  {
    if work == [] then multiset{}
    else
      var last := work[|work| - 1];
      WorkEnds(g, work[..|work| - 1]) + Ends(g, last.0, Level(last.1))
  }

  /** `5^n`. */
  function Pow5(n: nat): (r: nat)
    ensures r >= 1
  {
    if n == 0 then 1 else 5 * Pow5(n - 1)
  }

  /** The termination measure: an item at height `k` outweighs the four it can push. */
  function WorkWeight(work: seq<(Point, char)>): nat
    requires Pending(work)
  {
    if work == [] then 0
    else
      var last := work[|work| - 1];
      WorkWeight(work[..|work| - 1]) + Pow5(9 - Level(last.1))
  }

  /**
   * The body of the worklist loop for a popped cell `p` at height `h`: for each of the four
   * steps to a cell one height higher, count a `'9'` in `peaks` or push the cell.
   */
  method PushSteps(g: Grid<char>, p: Point, h: char, work: seq<(Point, char)>, peaks: multiset<Point>)
    returns (work': seq<(Point, char)>, peaks': multiset<Point>)
    requires g.Valid() && Pending(work) && '0' <= h <= '8'
    ensures Pending(work')
    ensures peaks' + WorkEnds(g, work') == peaks + WorkEnds(g, work) + Ends(g, p, Level(h))
    ensures WorkWeight(work') <= WorkWeight(work) + 4 * Pow5(8 - Level(h))
  {
    var k := Level(h);
    var h' := Height(k + 1);
    LevelOfHeight(k + 1);
    ghost var base := peaks + WorkEnds(g, work);
    ghost var u := Pow5(8 - k);
    work', peaks' := work, peaks;
    for i := 0 to 4
      invariant Pending(work')
      invariant peaks' + WorkEnds(g, work') == base + StepEnds(g, p, k, i)
      invariant WorkWeight(work') <= WorkWeight(work) + i * u
    {
      assert (i + 1) * u == i * u + u;
      var q := p.Add(STEPS[i]);
      if g.Get(q) == Some(h') {
        if h' == '9' {
          StepPeak(g, p, k, i, base, work', peaks');
          peaks' := peaks' + multiset{q};
        } else {
          StepPush(g, p, k, i, base, work', peaks');
          work' := work' + [(q, h')];
        }
      } else {
        StepMiss(g, p, k, i, base, work', peaks');
      }
    }
  }

  /** A step onto a cell of the wrong height adds no trail end. */
  lemma StepMiss(g: Grid<char>, p: Point, k: nat, i: nat, base: multiset<Point>, w: seq<(Point, char)>, pk: multiset<Point>)
    requires g.Valid() && k < 9 && i < 4 && Pending(w)
    requires g.Get(p.Add(STEPS[i])) != Some(Height(k + 1))
    requires pk + WorkEnds(g, w) == base + StepEnds(g, p, k, i)
    ensures pk + WorkEnds(g, w) == base + StepEnds(g, p, k, i + 1)
  {
    assert Reach(g, p.Add(STEPS[i]), k + 1) == multiset{};
  }

  /** A step onto a `'9'` adds that one trail end, counted in the peaks. */
  lemma StepPeak(g: Grid<char>, p: Point, k: nat, i: nat, base: multiset<Point>, w: seq<(Point, char)>, pk: multiset<Point>)
    requires g.Valid() && k + 1 == 9 && i < 4 && Pending(w)
    requires g.Get(p.Add(STEPS[i])) == Some(Height(k + 1))
    requires pk + WorkEnds(g, w) == base + StepEnds(g, p, k, i)
    ensures (pk + multiset{p.Add(STEPS[i])}) + WorkEnds(g, w) == base + StepEnds(g, p, k, i + 1)
  {
    var q := p.Add(STEPS[i]);
    assert Reach(g, q, k + 1) == multiset{q};
    Regroup(pk, WorkEnds(g, w), base, StepEnds(g, p, k, i), multiset{q}, pk + multiset{q}, WorkEnds(g, w));
  }

  /** A step onto a lower cell defers its trail ends to a new work item. */
  lemma StepPush(g: Grid<char>, p: Point, k: nat, i: nat, base: multiset<Point>, w: seq<(Point, char)>, pk: multiset<Point>)
    requires g.Valid() && k + 1 < 9 && i < 4 && Pending(w)
    requires g.Get(p.Add(STEPS[i])) == Some(Height(k + 1))
    requires pk + WorkEnds(g, w) == base + StepEnds(g, p, k, i)
    ensures Pending(w + [(p.Add(STEPS[i]), Height(k + 1))])
    ensures pk + WorkEnds(g, w + [(p.Add(STEPS[i]), Height(k + 1))]) == base + StepEnds(g, p, k, i + 1)
    ensures WorkWeight(w + [(p.Add(STEPS[i]), Height(k + 1))]) == WorkWeight(w) + Pow5(8 - k)
  {
    var q := p.Add(STEPS[i]);
    LevelOfHeight(k + 1);
    var r := Ends(g, q, k + 1);
    assert Reach(g, q, k + 1) == r;
    WorkSnoc(g, w, (q, Height(k + 1)));
    Regroup(pk, WorkEnds(g, w), base, StepEnds(g, p, k, i), r, pk, WorkEnds(g, w) + r);
  }

  /** Heights and levels convert back. */
  lemma LevelOfHeight(k: nat)
    requires k <= 9
    ensures Level(Height(k)) == k
  {
  }

  /** Appending a work item adds its trail ends and its weight. */
  lemma WorkSnoc(g: Grid<char>, work: seq<(Point, char)>, x: (Point, char))
    requires g.Valid() && Pending(work) && '0' <= x.1 <= '8'
    ensures Pending(work + [x])
    ensures WorkEnds(g, work + [x]) == WorkEnds(g, work) + Ends(g, x.0, Level(x.1))
    ensures WorkWeight(work + [x]) == WorkWeight(work) + Pow5(9 - Level(x.1))
  {
    assert (work + [x])[..|work|] == work;
  }

  /** The regrouping of the loop invariant after one step. */
  lemma Regroup<T>(pk: multiset<T>, w: multiset<T>, base: multiset<T>, s: multiset<T>, r: multiset<T>,
                   pk': multiset<T>, w': multiset<T>)
    requires pk + w == base + s && pk' + w' == (pk + w) + r
    ensures pk' + w' == base + (s + r)
  {
  }

  lemma AddAfter<T>(a: multiset<T>, b: multiset<T>, d: multiset<T>)
    ensures (a + d) + b == (a + b) + d
  {
  }

  lemma AddAssoc<T>(a: multiset<T>, b: multiset<T>, d: multiset<T>)
    ensures a + (b + d) == (a + b) + d
  {
  }

  /**
   * `trailhead_score`: from a `'0'`, pop cells until the worklist is empty. `peaks` counts
   * the trails ending at each `'9'`, which makes it the multiset of trail ends; the score
   * is its number of distinct cells and its total count.
   */
  method TrailheadScore(g: Grid<char>, p0: Point) returns (r: (nat, nat))
    requires g.Valid()
    ensures r == Score(g, p0)
    ensures g.Get(p0) == Some('0') ==>
              r.1 == |Trails(g, p0, 0)| && r.0 == |set t | t in Trails(g, p0, 0) && |t| > 0 :: t[|t| - 1]|
  {
    if g.Get(p0) != Some('0') {
      assert Score(g, p0) == (0, 0);
      return (0, 0);
    }
    var work := [(p0, '0')];
    var peaks: multiset<Point> := multiset{};
    assert work[..0] == [];
    while work != []
      invariant Pending(work)
      invariant peaks + WorkEnds(g, work) == Ends(g, p0, 0)
      decreases WorkWeight(work)
    {
      var (p, h) := work[|work| - 1];
      var rest := work[..|work| - 1];
      assert WorkWeight(work) == WorkWeight(rest) + Pow5(9 - Level(h));
      assert Pow5(9 - Level(h)) == 5 * Pow5(8 - Level(h));
      work, peaks := PushSteps(g, p, h, rest, peaks);
    }
    assert WorkEnds(g, work) == multiset{};
    assert peaks == Ends(g, p0, 0);
    r := (Distinct(peaks), |peaks|);
    assert r == Score(g, p0);
    ScoreCountsTrails(g, p0);
  }

  // ---------------------------------------------------------------- both stars

  /** The scores of the trailheads among `ps`, summed component by component. */
  function SumScores(g: Grid<char>, ps: seq<Point>): (nat, nat)
    reads g
    requires g.Valid()
  {
    if ps == [] then (0, 0)
    else
      var s := SumScores(g, ps[..|ps| - 1]);
      var t := Score(g, ps[|ps| - 1]);
      (s.0 + t.0, s.1 + t.1)
  }

  /** `stars`: both scores summed over every position of the grid. */
  method Stars(g: Grid<char>) returns (r: (nat, nat))
    requires g.Valid()
    ensures r == SumScores(g, g.Positions())
  {
    var ps := g.Positions();
    r := (0, 0);
    for i := 0 to |ps|
      invariant r == SumScores(g, ps[..i])
    {
      var t := TrailheadScore(g, ps[i]);
      SumScoresSnoc(g, ps, i, r, t);
      r := (r.0 + t.0, r.1 + t.1);
    }
    assert ps[..|ps|] == ps;
  }

  /** One more position adds its score. */
  lemma SumScoresSnoc(g: Grid<char>, ps: seq<Point>, i: nat, s: (nat, nat), t: (nat, nat))
    requires g.Valid() && i < |ps| && s == SumScores(g, ps[..i]) && t == Score(g, ps[i])
    ensures SumScores(g, ps[..i + 1]) == (s.0 + t.0, s.1 + t.1)
  {
    assert ps[..i + 1][..i] == ps[..i];
  }
}

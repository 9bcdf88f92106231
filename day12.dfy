/**
 * Day 12: a garden of plots, one letter per cell. A region is a 4-connected set of
 * cells of one letter; it costs its area times its perimeter, and the answer is the
 * sum over all regions. The garden is first packed: each cell keeps its letter in the
 * low 8 bits and, above them, the number of its sides that face another letter or
 * the edge.
 */
module Day12 {
  import opened Wrappers
  import opened Text
  import opened Grids

  // ---------------------------------------------------------------- packing

  /** The plot byte of a packed cell: its low 8 bits, `v & 0xFF`. */
  function Plot(v: nat): nat
  {
    v % 256
  }

  /** The fence count of a packed cell: the bits above the low 8, `v >> 8`. */
  function FenceCount(v: nat): (n: nat)
    ensures n * 256 <= v < n * 256 + 256
  {
    v / 256
  }

  /** `plot as u16 + (n_fences << 8)`: both parts come back out, and four fences still fit in 16 bits. */
  function Pack(plot: nat, n: nat): (v: nat)
    requires plot < 256
    ensures Plot(v) == plot && FenceCount(v) == n
    ensures n <= 4 ==> v < 0x1_0000
  {
    plot + n * 256
  }

  /** Of the first `k` steps from `p`, those whose cell differs from `p`'s or lies off the grid. */
  function Fences(g: Grid<char>, p: Point, k: nat): (n: nat)
    reads g
    requires g.Valid() && k <= 4
    ensures n <= k
  {
    if k == 0 then 0
    else Fences(g, p, k - 1) + if g.Get(p) != g.Get(p.Add(STEPS[k - 1])) then 1 else 0
  }

  /** No fence exactly when all the steps see the same cell; `k` fences exactly when all see another. */
  lemma {:induction false} FencesExtremes(g: Grid<char>, p: Point, k: nat)
    requires g.Valid() && k <= 4
    ensures Fences(g, p, k) == 0 <==> forall j :: 0 <= j < k ==> g.Get(p) == g.Get(p.Add(STEPS[j]))
    ensures Fences(g, p, k) == k <==> forall j :: 0 <= j < k ==> g.Get(p) != g.Get(p.Add(STEPS[j]))
  {
    if k > 0 {
      FencesExtremes(g, p, k - 1);
    }
  }

  /** Every cell of the grid is a byte. */
  predicate Bytes(g: Grid<char>)
    reads g
  {
    forall k :: 0 <= k < |g.cells| ==> g.cells[k] as int < 256
  }

  /** The packed cell of an inside position `p`: its byte and its fence count. */
  function Packed(g: Grid<char>, p: Point): (v: nat)
    reads g
    requires g.Valid() && Bytes(g) && g.IsInside(p)
  {
    Pack(g.Get(p).value as int, Fences(g, p, 4))
  }

  /**
   * The loop of `parse_garden`: each cell of `g` packed with its fence count, written
   * at the index of its position.
   */
  method PackGarden(g: Grid<char>) returns (r: Grid<nat>)
    requires g.Valid() && Bytes(g)
    ensures fresh(r) && r.Valid() && r.dx == g.dx && r.dy == g.dy
    ensures forall p :: g.IsInside(p) ==>
      Plot(r.cells[g.ToIndex(p).value]) == g.cells[g.ToIndex(p).value] as int &&
      FenceCount(r.cells[g.ToIndex(p).value]) == Fences(g, p, 4)
  {
    var ps := g.Positions();
    var cs: seq<nat> := seq(g.dx * g.dy, _ => 0);
    for k := 0 to |ps|
      invariant |cs| == g.dx * g.dy
      invariant forall j :: 0 <= j < k ==> cs[j] == Packed(g, ps[j])
    {
      var p := ps[k];
      var plot := g.Get(p).value;
      var i := g.ToIndex(p).value;
      cs := cs[i := Pack(plot as int, Fences(g, p, 4))];
    }
    PackedAt(g, cs);
    r := new Grid<nat>.Make(g.dx, g.dy, cs);
  }

  /** Storage packed position by position holds every cell packed. */
  lemma PackedAt(g: Grid<char>, cs: seq<nat>)
    requires g.Valid() && Bytes(g) && |cs| == g.dx * g.dy
    requires forall j :: 0 <= j < |cs| ==> cs[j] == Packed(g, g.Positions()[j])
    ensures forall p :: g.IsInside(p) ==>
      Plot(cs[g.ToIndex(p).value]) == g.cells[g.ToIndex(p).value] as int &&
      FenceCount(cs[g.ToIndex(p).value]) == Fences(g, p, 4)
  {
    forall p | g.IsInside(p)
      ensures Plot(cs[g.ToIndex(p).value]) == g.cells[g.ToIndex(p).value] as int
      ensures FenceCount(cs[g.ToIndex(p).value]) == Fences(g, p, 4)
    {
      g.PositionsComplete(p);
    }
  }

  /** Every character of a line of `s` is a character of `s`. */
  lemma {:induction false} LinesWithin(s: string)
    ensures forall line, c :: line in Lines(s) && c in line ==> c in s
    decreases |s|
  {
    if s != [] {
      match SplitOnce(s, '\n')
      case None =>
      case Some((head, tail)) =>
        LinesWithin(tail);
        assert forall c :: c in StripCR(head) ==> c in head;
    }
  }

  /** Every character of the lines laid end to end is a character of some line. */
  lemma {:induction false} FlattenWithin(ls: seq<string>)
    ensures forall c :: c in Flatten(ls) ==> exists line :: line in ls && c in line
    decreases |ls|
  {
    if ls != [] {
      FlattenWithin(ls[1..]);
      forall c | c in Flatten(ls)
        ensures exists line :: line in ls && c in line
      {
        assert Flatten(ls) == ls[0] + Flatten(ls[1..]);
        if c !in ls[0] {
          assert c in Flatten(ls[1..]);
          var line :| line in ls[1..] && c in line;
          assert line in ls;
        }
      }
    }
  }

  /** Every character of the lines of `s` from line `k` on, laid end to end, is a character of `s`. */
  lemma CharsWithin(s: string, k: nat)
    requires k <= |Lines(s)|
    ensures forall c :: c in Flatten(Lines(s)[k..]) ==> c in s
  {
    LinesWithin(s);
    FlattenWithin(Lines(s)[k..]);
    forall c | c in Flatten(Lines(s)[k..])
      ensures c in s
    {
      var line :| line in Lines(s)[k..] && c in line;
    }
  }

  /**
   * `parse_garden`: the packed garden of the input, whose characters are bytes; the
   * errors of `Grid::parse`.
   */
  method ParseGarden(input: string) returns (r: Result<Grid<nat>>)
    requires exists i :: 0 <= i < |Lines(input)| && Lines(input)[i] != []
    requires forall i :: 0 <= i < |input| ==> input[i] as int < 256
    ensures r.Ok? <==> Rectangular(Lines(input))
    ensures r.Ok? ==> fresh(r.value) && r.value.Valid()
    ensures r.Ok? ==>
      exists g: Grid<char> :: g.Valid() && GridOfLines(g, Lines(input)) && g.dx == r.value.dx && g.dy == r.value.dy &&
        forall p :: g.IsInside(p) ==>
          Plot(r.value.cells[g.ToIndex(p).value]) == g.cells[g.ToIndex(p).value] as int &&
          FenceCount(r.value.cells[g.ToIndex(p).value]) == Fences(g, p, 4)
  {
    var parsed := Parse(input);
    if parsed.Err? {
      return Err(parsed.error);
    }
    var g := parsed.value;
    var k := FirstNonEmpty(Lines(input));
    CharsWithin(input, k);
    forall j | 0 <= j < |g.cells|
      ensures g.cells[j] as int < 256
    {
      assert g.cells[j] in Flatten(Lines(input)[k..]);
    }
    var garden := PackGarden(g);
    r := Ok(garden);
  }

  // ---------------------------------------------------------------- regions

  /** The packed cell at `q`; `0` off the garden. */
  function CellAt(garden: Grid<nat>, q: Point): nat
    reads garden
    requires garden.Valid()
  {
    match garden.Get(q)
    case Some(v) => v
    case None => 0
  }

  /** The inside cells of plot `plot`. */
  ghost function Same(garden: Grid<nat>, plot: nat): set<Point>
    reads garden
    requires garden.Valid()
  {
    set q | q in garden.AllPoints() && garden.IsInside(q) && Plot(CellAt(garden, q)) == plot
  }

  /** The region of `p`: what can be reached from `p` through cells of its plot; empty off the garden. */
  ghost function Region(garden: Grid<nat>, p: Point): set<Point>
    reads garden
    requires garden.Valid()
  {
    set q | q in garden.AllPoints() && garden.IsInside(p) && Reachable(Same(garden, Plot(CellAt(garden, p))), p, q)
  }

  /** `vis.get(p) == Some(&0)`: `p` is inside and not yet marked. */
  predicate Unmarked(garden: Grid<nat>, marks: seq<bv8>, p: Point)
    requires |marks| == garden.dx * garden.dy
  {
    garden.IsInside(p) && marks[garden.ToIndex(p).value] == 0
  }

  /** The inside cells marked in `marks`. */
  ghost function MarkedSet(garden: Grid<nat>, marks: seq<bv8>): set<Point>
    requires |marks| == garden.dx * garden.dy
  {
    set q | q in garden.AllPoints() && garden.IsInside(q) && !Unmarked(garden, marks, q)
  }

  /** The unmarked cells of plot `plot`. */
  ghost function Free(garden: Grid<nat>, marks: seq<bv8>, plot: nat): set<Point>
    reads garden
    requires garden.Valid() && |marks| == garden.dx * garden.dy
  {
    set q | q in Same(garden, plot) && Unmarked(garden, marks, q)
  }

  /** What `flood_step` fills from `p`: the cells reachable from `p` through unmarked cells of its plot. */
  ghost function FloodRegion(garden: Grid<nat>, marks: seq<bv8>, p: Point): set<Point>
    reads garden
    requires garden.Valid() && |marks| == garden.dx * garden.dy
  {
    set q | q in garden.AllPoints() && Reachable(Free(garden, marks, Plot(CellAt(garden, p))), p, q)
  }

  /** `marks` is `marks0` with `1` written on the cells of `s`. */
  ghost predicate Marked(garden: Grid<nat>, marks: seq<bv8>, marks0: seq<bv8>, s: set<Point>)
    requires |marks| == garden.dx * garden.dy && |marks0| == garden.dx * garden.dy
  {
    forall q :: garden.IsInside(q) ==>
      marks[garden.ToIndex(q).value] == if q in s then 1 else marks0[garden.ToIndex(q).value]
  }

  /** The fence counts of the cells of `s`, summed. */
  ghost function FenceSum(garden: Grid<nat>, s: set<Point>): nat
    reads garden
    requires garden.Valid()
    decreases s
  {
    if s == {} then 0 else var q :| q in s; FenceCount(CellAt(garden, q)) + FenceSum(garden, s - {q})
  }

  /** The sum does not depend on the cell taken out first. */
  lemma {:induction false} FenceSumRemove(garden: Grid<nat>, s: set<Point>, q: Point)
    requires garden.Valid() && q in s
    ensures FenceSum(garden, s) == FenceCount(CellAt(garden, q)) + FenceSum(garden, s - {q})
    decreases s
  {
    var r :| r in s && FenceSum(garden, s) == FenceCount(CellAt(garden, r)) + FenceSum(garden, s - {r});
    if r != q {
      FenceSumRemove(garden, s - {r}, q);
      FenceSumRemove(garden, s - {q}, r);
      assert s - {r} - {q} == s - {q} - {r};
    }
  }

  /** A new cell adds its own fence count. */
  lemma FenceSumAdd(garden: Grid<nat>, s: set<Point>, q: Point)
    requires garden.Valid() && q !in s
    ensures FenceSum(garden, s + {q}) == FenceSum(garden, s) + FenceCount(CellAt(garden, q))
  {
    FenceSumRemove(garden, s + {q}, q);
    assert s + {q} - {q} == s;
  }

  /** The price of a region: its area times its perimeter. */
  function Price(area: nat, perimeter: nat): nat
  {
    area * perimeter
  }

  /** The price of a set of cells, whose perimeter is the sum of their fence counts. */
  ghost function Cost(garden: Grid<nat>, s: set<Point>): nat
    reads garden
    requires garden.Valid()
  {
    Price(|s|, FenceSum(garden, s))
  }

  // ---------------------------------------------------------------- flood_step

  /**
   * `marks'` and `stack'` are `marks` and `stack` after the step loop of `flood_step`
   * from `x`: the cells of `added`, each an inside neighbour of `x` of plot `plot` that
   * was unmarked, are marked and pushed, and afterwards every inside neighbour of `x`
   * of plot `plot` is marked.
   */
  ghost predicate Queued(garden: Grid<nat>, plot: nat, x: Point, marks: seq<bv8>, stack: seq<Point>,
                         marks': seq<bv8>, stack': seq<Point>, added: set<Point>)
    reads garden
    requires garden.Valid() && |marks| == garden.dx * garden.dy && |marks'| == garden.dx * garden.dy
  {
    Marked(garden, marks', marks, added) &&
    |stack| <= |stack'| && stack'[..|stack|] == stack &&
    (forall q :: q in stack'[|stack|..] <==> q in added) &&
    Distinct(stack'[|stack|..]) &&
    (forall q :: q in added ==>
       Adjacent(x, q) && Unmarked(garden, marks, q) && Plot(CellAt(garden, q)) == plot) &&
    (forall k :: 0 <= k < 4 && garden.IsInside(x.Add(STEPS[k])) && Plot(CellAt(garden, x.Add(STEPS[k]))) == plot ==>
       !Unmarked(garden, marks', x.Add(STEPS[k])))
  }

  /** The step loop of `flood_step`: marks and pushes each unmarked neighbour of `x` of plot `plot`. */
  method Neighbours(garden: Grid<nat>, plot: nat, x: Point, marks: seq<bv8>, stack: seq<Point>)
    returns (marks': seq<bv8>, stack': seq<Point>, ghost added: set<Point>)
    requires garden.Valid() && |marks| == garden.dx * garden.dy
    ensures |marks'| == |marks|
    ensures Queued(garden, plot, x, marks, stack, marks', stack', added)
  {
    marks', stack', added := marks, stack, {};
    for k := 0 to 4
      invariant |marks'| == |marks|
      invariant Marked(garden, marks', marks, added)
      invariant |stack| <= |stack'| && stack'[..|stack|] == stack
      invariant forall q :: q in stack'[|stack|..] <==> q in added
      invariant Distinct(stack'[|stack|..])
      invariant forall q :: q in added ==>
                  Adjacent(x, q) && Unmarked(garden, marks, q) && Plot(CellAt(garden, q)) == plot
      invariant forall j :: 0 <= j < k && garden.IsInside(x.Add(STEPS[j])) && Plot(CellAt(garden, x.Add(STEPS[j]))) == plot ==>
                  !Unmarked(garden, marks', x.Add(STEPS[j]))
    {
      var q := x.Add(STEPS[k]);
      if garden.IsInside(q) && marks'[garden.ToIndex(q).value] == 0 && Plot(garden.Get(q).value) == plot {
        StepIsAdjacent(x, k);
        Remark(garden, marks', marks, added, q);
        assert (stack' + [q])[|stack|..] == stack'[|stack|..] + [q];
        marks' := marks'[garden.ToIndex(q).value := 1];
        stack' := stack' + [q];
        added := added + {q};
      }
    }
  }

  /** Marking one more unmarked cell `q` keeps `Marked`, and `q` was not marked before. */
  lemma Remark(garden: Grid<nat>, marks: seq<bv8>, marks0: seq<bv8>, s: set<Point>, q: Point)
    requires |marks| == garden.dx * garden.dy && |marks0| == garden.dx * garden.dy
    requires Marked(garden, marks, marks0, s) && Unmarked(garden, marks, q)
    ensures q !in s && marks0[garden.ToIndex(q).value] == 0
    ensures Marked(garden, marks[garden.ToIndex(q).value := 1], marks0, s + {q})
  {
    forall r | garden.IsInside(r) && r != q ensures garden.ToIndex(r) != garden.ToIndex(q) {
      if garden.ToIndex(r) == garden.ToIndex(q) {
        garden.ToIndexInjective(r, q);
      }
    }
  }

  /**
   * What holds between two rounds of `flood_step`'s search from `p`: marked are `marks0`'s
   * marks and `visited`, which lies within the flood region; the stack holds, once each,
   * the visited cells not yet `done`; and every step from a done cell into an unmarked
   * cell of `p`'s plot lands on a visited cell.
   */
  ghost predicate Dfs(garden: Grid<nat>, marks0: seq<bv8>, marks: seq<bv8>, p: Point,
                      stack: seq<Point>, visited: set<Point>, done: set<Point>)
    reads garden
    requires garden.Valid() && |marks0| == garden.dx * garden.dy && |marks| == garden.dx * garden.dy
  {
    var F := Free(garden, marks0, Plot(CellAt(garden, p)));
    Marked(garden, marks, marks0, visited) &&
    p in visited && visited <= FloodRegion(garden, marks0, p) && done <= visited &&
    (forall q :: q in visited ==> garden.IsInside(q)) &&
    (forall q :: q in stack <==> q in visited && q !in done) &&
    Distinct(stack) &&
    (forall a, b :: a in done && Adjacent(a, b) && b in F ==> b in visited)
  }

  lemma DfsStart(garden: Grid<nat>, marks0: seq<bv8>, p: Point)
    requires garden.Valid() && |marks0| == garden.dx * garden.dy && Unmarked(garden, marks0, p)
    ensures Dfs(garden, marks0, marks0[garden.ToIndex(p).value := 1], p, [p], {p}, {})
  {
    assert Marked(garden, marks0, marks0, {});
    Remark(garden, marks0, marks0, {}, p);
    garden.AllPointsHas(p);
    assert IsWalk(Free(garden, marks0, Plot(CellAt(garden, p))), [p]);
  }

  /** A round of the search from `p`: popping `x` and queueing its neighbours keeps `Dfs`. */
  lemma DfsStep(garden: Grid<nat>, marks0: seq<bv8>, p: Point, marks: seq<bv8>, stack: seq<Point>,
                visited: set<Point>, done: set<Point>, marks': seq<bv8>, stack': seq<Point>, added: set<Point>)
    requires garden.Valid() && |marks0| == garden.dx * garden.dy
    requires |marks| == garden.dx * garden.dy && |marks'| == garden.dx * garden.dy
    requires Dfs(garden, marks0, marks, p, stack, visited, done) && |stack| > 0
    requires Queued(garden, Plot(CellAt(garden, p)), stack[|stack| - 1], marks, stack[..|stack| - 1], marks', stack', added)
    ensures stack[|stack| - 1] !in done && stack[|stack| - 1] in FloodRegion(garden, marks0, p)
    ensures Dfs(garden, marks0, marks', p, stack', visited + added, done + {stack[|stack| - 1]})
  {
    var x := stack[|stack| - 1];
    var rest := stack[..|stack| - 1];
    var n := |rest|;
    var plot := Plot(CellAt(garden, p));
    var F := Free(garden, marks0, plot);
    var R := FloodRegion(garden, marks0, p);
    assert x in stack;
    assert x !in rest by {
      forall i | 0 <= i < n ensures rest[i] != x {
        assert rest[i] == stack[i];
      }
    }
    forall q | q in added ensures q !in visited && q in R {
      Unvisited(garden, marks0, marks, visited, q);
      garden.AllPointsHas(q);
      ReachableStep(F, p, x, q);
    }
    forall q | garden.IsInside(q)
      ensures marks'[garden.ToIndex(q).value] == if q in visited + added then 1 else marks0[garden.ToIndex(q).value]
    {
    }
    SplitAt(stack', n);
    forall q ensures q in stack' <==> q in visited + added && q !in done + {x} {
      assert q in stack' <==> q in rest || q in stack'[n..];
      assert q in stack <==> q in rest || q == x by {
        PopLast(stack);
      }
    }
    assert Distinct(rest);
    DistinctConcat(rest, stack'[n..]);
    forall a, b | a in done + {x} && Adjacent(a, b) && b in F ensures b in visited + added {
      if a == x {
        var j := AdjacentStep(x, b);
        assert !Unmarked(garden, marks', x.Add(STEPS[j]));
      }
    }
  }

  /** An unmarked cell has not been visited, and `marks0` has it unmarked too. */
  lemma Unvisited(garden: Grid<nat>, marks0: seq<bv8>, marks: seq<bv8>, visited: set<Point>, q: Point)
    requires |marks0| == garden.dx * garden.dy && |marks| == garden.dx * garden.dy
    requires Marked(garden, marks, marks0, visited) && Unmarked(garden, marks, q)
    ensures q !in visited && Unmarked(garden, marks0, q)
  {
  }

  /** Finishing a cell `x` of region `r` adds one to the area and its fence count to the perimeter. */
  lemma DoneGrows(garden: Grid<nat>, r: set<Point>, done: set<Point>, x: Point)
    requires garden.Valid() && done <= r && x in r && x !in done
    ensures |done + {x}| == |done| + 1 && |r - (done + {x})| < |r - done|
    ensures FenceSum(garden, done + {x}) == FenceSum(garden, done) + FenceCount(CellAt(garden, x))
  {
    FenceSumAdd(garden, done, x);
    Grid<nat>.CardShrink(r, done, done + {x});
  }

  /** When the stack runs dry, what was done is the whole flood region. */
  lemma DfsEnd(garden: Grid<nat>, marks0: seq<bv8>, marks: seq<bv8>, p: Point, visited: set<Point>, done: set<Point>)
    requires garden.Valid() && |marks0| == garden.dx * garden.dy && |marks| == garden.dx * garden.dy
    requires Dfs(garden, marks0, marks, p, [], visited, done)
    ensures done == FloodRegion(garden, marks0, p) && Marked(garden, marks, marks0, done)
  {
    var F := Free(garden, marks0, Plot(CellAt(garden, p)));
    assert visited == done;
    forall q | q in FloodRegion(garden, marks0, p) ensures q in done {
      var ps :| IsWalk(F, ps) && ps[0] == p && ps[|ps| - 1] == q;
      ClosedHoldsReachable(F, done, p, ps);
    }
  }

  /** One round of the search: pop a cell, count it, and mark and push its unmarked neighbours of the plot. */
  method Round(garden: Grid<nat>, marks0: seq<bv8>, p: Point, plot: nat, marks: seq<bv8>, stack: seq<Point>,
               ghost visited: set<Point>, ghost done: set<Point>, area: nat, perim: nat)
    returns (marks': seq<bv8>, stack': seq<Point>, ghost visited': set<Point>, ghost done': set<Point>,
             area': nat, perim': nat)
    requires garden.Valid() && |marks0| == garden.dx * garden.dy && |marks| == garden.dx * garden.dy
    requires plot == Plot(CellAt(garden, p)) && |stack| > 0
    requires Dfs(garden, marks0, marks, p, stack, visited, done)
    requires area == |done| && perim == FenceSum(garden, done)
    ensures |marks'| == garden.dx * garden.dy
    ensures Dfs(garden, marks0, marks', p, stack', visited', done')
    ensures area' == |done'| && perim' == FenceSum(garden, done')
    ensures |FloodRegion(garden, marks0, p) - done'| < |FloodRegion(garden, marks0, p) - done|
  {
    var x := stack[|stack| - 1];
    assert x in stack;
    stack' := stack[..|stack| - 1];
    area' := area + 1;
    perim' := perim + FenceCount(garden.Get(x).value);
    ghost var added;
    marks', stack', added := Neighbours(garden, plot, x, marks, stack');
    DfsStep(garden, marks0, p, marks, stack, visited, done, marks', stack', added);
    DoneGrows(garden, FloodRegion(garden, marks0, p), done, x);
    visited', done' := visited + added, done + {x};
    assert perim' == perim + FenceCount(CellAt(garden, x));
    assert FenceSum(garden, done') == FenceSum(garden, done) + FenceCount(CellAt(garden, x));
  }

  /**
   * The search of `flood_step` from an unmarked `p`, on a copy of the marks: it marks
   * exactly the flood region of `p` and returns its area and its perimeter.
   */
  method Search(garden: Grid<nat>, marks0: seq<bv8>, p: Point) returns (marks: seq<bv8>, area: nat, perim: nat)
    requires garden.Valid() && |marks0| == garden.dx * garden.dy && Unmarked(garden, marks0, p)
    ensures |marks| == |marks0|
    ensures area == |FloodRegion(garden, marks0, p)| && perim == FenceSum(garden, FloodRegion(garden, marks0, p))
    ensures Marked(garden, marks, marks0, FloodRegion(garden, marks0, p))
  {
    var plot := Plot(garden.Get(p).value);
    var stack := [p];
    marks := marks0[garden.ToIndex(p).value := 1];
    ghost var visited: set<Point> := {p};
    ghost var done: set<Point> := {};
    area, perim := 0, 0;
    DfsStart(garden, marks0, p);
    while |stack| > 0
      invariant |marks| == garden.dx * garden.dy
      invariant Dfs(garden, marks0, marks, p, stack, visited, done)
      invariant area == |done| && perim == FenceSum(garden, done)
      decreases |FloodRegion(garden, marks0, p) - done|
    {
      marks, stack, visited, done, area, perim := Round(garden, marks0, p, plot, marks, stack, visited, done, area, perim);
    }
    DfsEnd(garden, marks0, marks, p, visited, done);
  }

  /**
   * `flood_step`: a marked or outside `p` costs nothing and changes nothing; otherwise
   * the search marks exactly the flood region of `p` and returns its area times its
   * perimeter.
   */
  method FloodStep(garden: Grid<nat>, vis: Grid<bv8>, p: Point) returns (cost: nat)
    requires garden.Valid() && vis.Valid() && vis.dx == garden.dx && vis.dy == garden.dy
    requires garden as object != vis as object
    modifies vis
    ensures vis.Valid()
    ensures !Unmarked(garden, old(vis.cells), p) ==> cost == 0 && vis.cells == old(vis.cells)
    ensures Unmarked(garden, old(vis.cells), p) ==>
      cost == Cost(garden, FloodRegion(garden, old(vis.cells), p)) &&
      Marked(garden, vis.cells, old(vis.cells), FloodRegion(garden, old(vis.cells), p))
  {
    assert vis.ToIndex(p) == garden.ToIndex(p);
    if vis.Get(p) != Some(0) {
      assert !Unmarked(garden, vis.cells, p);
      return 0;
    }
    ghost var region := FloodRegion(garden, vis.cells, p);
    var marks, area, perim := Search(garden, vis.cells, p);
    vis.cells := marks;
    assert region == FloodRegion(garden, old(vis.cells), p);
    cost := Price(area, perim);
  }

  // ---------------------------------------------------------------- fence_cost

  /** Every cell of a region is inside and of the plot of the cell it grows from. */
  lemma RegionPlot(garden: Grid<nat>, p: Point, q: Point)
    requires garden.Valid() && q in Region(garden, p)
    ensures garden.IsInside(p) && garden.IsInside(q) && Plot(CellAt(garden, q)) == Plot(CellAt(garden, p))
  {
    var S := Same(garden, Plot(CellAt(garden, p)));
    var w :| IsWalk(S, w) && w[0] == p && w[|w| - 1] == q;
    WalkEnds(S, w);
    garden.AllPointsHas(q);
  }

  /** The cells covered by the regions of the cells of `ps`. */
  ghost function Covered(garden: Grid<nat>, ps: seq<Point>): set<Point>
    reads garden
    requires garden.Valid()
  {
    if ps == [] then {} else Covered(garden, ps[..|ps| - 1]) + Region(garden, ps[|ps| - 1])
  }

  /**
   * What `fence_cost` adds up over the cells of `ps`: the cost of each region, counted
   * at the first of its cells in `ps`.
   */
  ghost function TotalCost(garden: Grid<nat>, ps: seq<Point>): nat
    reads garden
    requires garden.Valid()
  {
    if ps == [] then 0
    else
      var n := |ps| - 1;
      TotalCost(garden, ps[..n]) + if ps[n] in Covered(garden, ps[..n]) then 0 else Cost(garden, Region(garden, ps[n]))
  }

  /** A covered cell's neighbours of the same plot are covered too. */
  lemma {:induction false} CoveredSealed(garden: Grid<nat>, ps: seq<Point>, x: Point, y: Point)
    requires garden.Valid() && x in Covered(garden, ps)
    requires Adjacent(x, y) && y in Same(garden, Plot(CellAt(garden, x)))
    ensures y in Covered(garden, ps)
    decreases |ps|
  {
    var n := |ps| - 1;
    if x in Covered(garden, ps[..n]) {
      CoveredSealed(garden, ps[..n], x, y);
    } else {
      RegionPlot(garden, ps[n], x);
      ReachableStep(Same(garden, Plot(CellAt(garden, ps[n]))), ps[n], x, y);
    }
  }

  /** The region of a covered cell is all covered. */
  lemma RegionWithin(garden: Grid<nat>, ps: seq<Point>, p: Point)
    requires garden.Valid() && p in Covered(garden, ps)
    ensures Region(garden, p) <= Covered(garden, ps)
  {
    var S := Same(garden, Plot(CellAt(garden, p)));
    var closed := Covered(garden, ps) * S;
    if garden.IsInside(p) {
      garden.AllPointsHas(p);
      assert p in closed;
    }
    forall a, b | a in closed && Adjacent(a, b) && b in S ensures b in closed {
      CoveredSealed(garden, ps, a, b);
    }
    forall q | q in Region(garden, p) ensures q in Covered(garden, ps) {
      var w :| IsWalk(S, w) && w[0] == p && w[|w| - 1] == q;
      ClosedHoldsReachable(S, closed, p, w);
    }
  }

  /** With the regions of `ps` marked, the flood from an unmarked cell fills exactly its region. */
  lemma FloodWhole(garden: Grid<nat>, ps: seq<Point>, marks: seq<bv8>, p: Point)
    requires garden.Valid() && |marks| == garden.dx * garden.dy
    requires MarkedSet(garden, marks) == Covered(garden, ps) && Unmarked(garden, marks, p)
    ensures FloodRegion(garden, marks, p) == Region(garden, p)
  {
    var plot := Plot(CellAt(garden, p));
    var S := Same(garden, plot);
    var F := Free(garden, marks, plot);
    var flood := FloodRegion(garden, marks, p);
    garden.AllPointsHas(p);
    forall q | q in flood ensures q in Region(garden, p) {
      var w :| IsWalk(F, w) && w[0] == p && w[|w| - 1] == q;
      WalkMono(F, S, w);
    }
    assert IsWalk(F, [p]);
    forall a, b | a in flood && Adjacent(a, b) && b in S ensures b in flood {
      var w :| IsWalk(F, w) && w[0] == p && w[|w| - 1] == a;
      WalkEnds(F, w);
      if !Unmarked(garden, marks, b) {
        garden.AllPointsHas(b);
        AdjacentSym(a, b);
        CoveredSealed(garden, ps, b, a);
        assert false;
      }
      ReachableStep(F, p, a, b);
    }
    forall q | q in Region(garden, p) ensures q in flood {
      var w :| IsWalk(S, w) && w[0] == p && w[|w| - 1] == q;
      ClosedHoldsReachable(S, flood, p, w);
    }
  }

  /** One flood step of `fence_cost` at `ps[k]` adds its region to the marks and its share to the total. */
  lemma CoverStep(garden: Grid<nat>, ps: seq<Point>, k: nat, marks: seq<bv8>, marks': seq<bv8>, c: nat)
    requires garden.Valid() && k < |ps| && garden.IsInside(ps[k])
    requires |marks| == garden.dx * garden.dy && |marks'| == garden.dx * garden.dy
    requires MarkedSet(garden, marks) == Covered(garden, ps[..k])
    requires !Unmarked(garden, marks, ps[k]) ==> c == 0 && marks' == marks
    requires Unmarked(garden, marks, ps[k]) ==>
      c == Cost(garden, FloodRegion(garden, marks, ps[k])) &&
      Marked(garden, marks', marks, FloodRegion(garden, marks, ps[k]))
    ensures MarkedSet(garden, marks') == Covered(garden, ps[..k + 1])
    ensures TotalCost(garden, ps[..k]) + c == TotalCost(garden, ps[..k + 1])
  {
    var p := ps[k];
    assert ps[..k + 1][..k] == ps[..k];
    if Unmarked(garden, marks, p) {
      CoverNew(garden, ps[..k], marks, marks', p);
    } else {
      garden.AllPointsHas(p);
      RegionWithin(garden, ps[..k], p);
    }
  }

  /** The flood from an unmarked cell marks its whole region, which was not covered yet. */
  lemma CoverNew(garden: Grid<nat>, ps: seq<Point>, marks: seq<bv8>, marks': seq<bv8>, p: Point)
    requires garden.Valid() && |marks| == garden.dx * garden.dy && |marks'| == garden.dx * garden.dy
    requires MarkedSet(garden, marks) == Covered(garden, ps) && Unmarked(garden, marks, p)
    requires Marked(garden, marks', marks, FloodRegion(garden, marks, p))
    ensures p !in Covered(garden, ps) && FloodRegion(garden, marks, p) == Region(garden, p)
    ensures MarkedSet(garden, marks') == Covered(garden, ps) + Region(garden, p)
  {
    FloodWhole(garden, ps, marks, p);
    var r := Region(garden, p);
    forall q ensures q in MarkedSet(garden, marks') <==> q in MarkedSet(garden, marks) || q in r {
      garden.AllPointsHas(q);
      if q in r {
        RegionPlot(garden, p, q);
      }
    }
  }

  /**
   * `fence_cost`: a flood step from every position in turn over one set of marks,
   * the costs summed; each region is priced once, at its first position.
   */
  method FenceCost(garden: Grid<nat>) returns (total: nat)
    requires garden.Valid()
    ensures total == TotalCost(garden, garden.Positions())
  {
    var vis := new Grid<bv8>.New(garden.dx, garden.dy, 0);
    var ps := garden.Positions();
    total := 0;
    assert MarkedSet(garden, vis.cells) == {};
    for k := 0 to |ps|
      invariant vis.Valid() && vis.dx == garden.dx && vis.dy == garden.dy
      invariant MarkedSet(garden, vis.cells) == Covered(garden, ps[..k])
      invariant total == TotalCost(garden, ps[..k])
    {
      ghost var marks := vis.cells;
      assert garden.IsInside(ps[k]);
      var c := FloodStep(garden, vis, ps[k]);
      CoverStep(garden, ps, k, marks, vis.cells, c);
      total := total + c;
    }
    assert ps[..|ps|] == ps;
  }

  // ---------------------------------------------------------------- regions partition the garden

  /** Every inside cell lies in its own region. */
  lemma RegionHasStart(garden: Grid<nat>, p: Point)
    requires garden.Valid() && garden.IsInside(p)
    ensures p in Region(garden, p)
  {
    garden.AllPointsHas(p);
    assert IsWalk(Same(garden, Plot(CellAt(garden, p))), [p]);
  }

  /** The region of any cell of a region is that region: two regions that meet are one. */
  lemma RegionSame(garden: Grid<nat>, p: Point, q: Point)
    requires garden.Valid() && q in Region(garden, p)
    ensures Region(garden, q) == Region(garden, p)
  {
    RegionPlot(garden, p, q);
    var S := Same(garden, Plot(CellAt(garden, p)));
    garden.AllPointsHas(p);
    assert p in S;
    ReachableSym(S, p, q);
    forall x | x in Region(garden, q) ensures x in Region(garden, p) {
      ReachableTrans(S, p, q, x);
    }
    forall x | x in Region(garden, p) ensures x in Region(garden, q) {
      ReachableTrans(S, q, p, x);
    }
  }

  /** The regions of the cells of `ps`. */
  ghost function RegionSet(garden: Grid<nat>, ps: seq<Point>): set<set<Point>>
    reads garden
    requires garden.Valid()
  {
    if ps == [] then {} else RegionSet(garden, ps[..|ps| - 1]) + {Region(garden, ps[|ps| - 1])}
  }

  /** The costs of a set of regions, summed. */
  ghost function SumCosts(garden: Grid<nat>, rs: set<set<Point>>): nat
    reads garden
    requires garden.Valid()
    decreases rs
  {
    if rs == {} then 0 else var r :| r in rs; Cost(garden, r) + SumCosts(garden, rs - {r})
  }

  /** The sum does not depend on the region taken out first. */
  lemma {:induction false} SumCostsRemove(garden: Grid<nat>, rs: set<set<Point>>, r: set<Point>)
    requires garden.Valid() && r in rs
    ensures SumCosts(garden, rs) == Cost(garden, r) + SumCosts(garden, rs - {r})
    decreases rs
  {
    var r' :| r' in rs && SumCosts(garden, rs) == Cost(garden, r') + SumCosts(garden, rs - {r'});
    if r' != r {
      SumCostsRemove(garden, rs - {r'}, r);
      SumCostsRemove(garden, rs - {r}, r');
      assert rs - {r'} - {r} == rs - {r} - {r'};
    }
  }

  /** A region that covers a cell of `ps`'s cover is among `ps`'s regions. */
  lemma {:induction false} RegionOfCovered(garden: Grid<nat>, ps: seq<Point>, q: Point)
    requires garden.Valid() && q in Covered(garden, ps)
    ensures Region(garden, q) in RegionSet(garden, ps)
    decreases |ps|
  {
    var n := |ps| - 1;
    if q in Covered(garden, ps[..n]) {
      RegionOfCovered(garden, ps[..n], q);
    } else {
      RegionSame(garden, ps[n], q);
    }
  }

  /** Each of `ps`'s regions lies within `ps`'s cover. */
  lemma {:induction false} CoveredOfRegion(garden: Grid<nat>, ps: seq<Point>, r: set<Point>)
    requires garden.Valid() && r in RegionSet(garden, ps)
    ensures r <= Covered(garden, ps)
    decreases |ps|
  {
    var n := |ps| - 1;
    if r in RegionSet(garden, ps[..n]) {
      CoveredOfRegion(garden, ps[..n], r);
    }
  }

  /** Summed in `fence_cost`'s order, each of the regions of `ps` is priced exactly once. */
  lemma {:induction false} TotalCostSums(garden: Grid<nat>, ps: seq<Point>)
    requires garden.Valid() && forall j :: 0 <= j < |ps| ==> garden.IsInside(ps[j])
    ensures TotalCost(garden, ps) == SumCosts(garden, RegionSet(garden, ps))
    decreases |ps|
  {
    if ps != [] {
      var n := |ps| - 1;
      var init, p := ps[..n], ps[n];
      TotalCostSums(garden, init);
      if p in Covered(garden, init) {
        RegionOfCovered(garden, init, p);
        assert RegionSet(garden, ps) == RegionSet(garden, init);
      } else {
        RegionHasStart(garden, p);
        if Region(garden, p) in RegionSet(garden, init) {
          CoveredOfRegion(garden, init, Region(garden, p));
          assert false;
        }
        SumCostsRemove(garden, RegionSet(garden, ps), Region(garden, p));
        assert RegionSet(garden, ps) - {Region(garden, p)} == RegionSet(garden, init);
      }
    }
  }

  /** The region of each cell of `ps` is one of `ps`'s regions. */
  lemma {:induction false} RegionSetHas(garden: Grid<nat>, ps: seq<Point>, j: nat)
    requires garden.Valid() && j < |ps|
    ensures Region(garden, ps[j]) in RegionSet(garden, ps)
    decreases |ps|
  {
    var n := |ps| - 1;
    if j < n {
      RegionSetHas(garden, ps[..n], j);
      assert ps[..n][j] == ps[j];
    }
  }

  /** Each of `ps`'s regions is the region of one of its cells. */
  lemma {:induction false} RegionSetFrom(garden: Grid<nat>, ps: seq<Point>, r: set<Point>) returns (j: nat)
    requires garden.Valid() && r in RegionSet(garden, ps)
    ensures j < |ps| && r == Region(garden, ps[j])
    decreases |ps|
  {
    var n := |ps| - 1;
    if r in RegionSet(garden, ps[..n]) {
      j := RegionSetFrom(garden, ps[..n], r);
      assert ps[..n][j] == ps[j];
    } else {
      j := n;
    }
  }

  /** The regions of the garden's positions, in order, are all the garden's regions. */
  lemma RegionSetAll(garden: Grid<nat>)
    requires garden.Valid()
    ensures RegionSet(garden, garden.Positions()) == set p | p in garden.AllPoints() :: Region(garden, p)
  {
    var ps := garden.Positions();
    forall r | r in RegionSet(garden, ps)
      ensures exists p :: p in garden.AllPoints() && r == Region(garden, p)
    {
      var j := RegionSetFrom(garden, ps, r);
      garden.AllPointsHas(ps[j]);
    }
    forall p | p in garden.AllPoints() ensures Region(garden, p) in RegionSet(garden, ps) {
      garden.AllPointsHas(p);
      garden.PositionsComplete(p);
      RegionSetHas(garden, ps, garden.ToIndex(p).value);
    }
  }

  /**
   * What `fence_cost` returns is the sum, over the regions of the garden, each taken
   * once, of area times perimeter.
   */
  lemma FenceCostIsRegionSum(garden: Grid<nat>)
    requires garden.Valid()
    ensures TotalCost(garden, garden.Positions()) ==
            SumCosts(garden, set p | p in garden.AllPoints() :: Region(garden, p))
  {
    TotalCostSums(garden, garden.Positions());
    RegionSetAll(garden);
  }
}

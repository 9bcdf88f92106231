/**
 * Day 16, the reindeer maze: a Dijkstra search over (cell, direction) states,
 * where a step ahead costs 1 and a quarter turn costs 1000.
 */
module Day16 {
  import opened Wrappers
  import opened Text
  import opened Grids

  const OPEN: char := '.'
  const START: char := 'S'
  const END: char := 'E'

  /** `usize::MAX` on a 64-bit target: the best cost of a state nothing has reached. */
  const UMAX: nat := 0xFFFF_FFFF_FFFF_FFFF

  datatype Map = Map(grid: Grid<char>, start: Point, end: Point)

  // ---------------------------------------------------------------- parsing

  /**
   * `find_grid_repl`: the first cell, in row-major order, holding `c`, overwritten with
   * `repl`; an error naming the byte value of `c` when there is none.
   */
  method FindGridRepl(g: Grid<char>, c: char, repl: char) returns (r: Result<Point>)
    requires g.Valid()
    modifies g
    ensures g.Valid()
    ensures r.Err? <==> c !in old(g.cells)
    ensures r.Err? ==> r.error == "error finding " + NatToString(c as nat) && g.cells == old(g.cells)
    ensures r.Ok? ==> old(g.Find(c)) == Some(r.value) && g.cells == old(g.cells)[g.ToIndex(r.value).value := repl]
  {
    var p := g.Find(c);
    if p.None? {
      return Err("error finding " + NatToString(c as nat));
    }
    var _ := g.Set(p.value, repl);
    r := Ok(p.value);
  }

  /**
   * `parse_map`: the grid with its first `'S'` and then its first `'E'` turned into open
   * floor, and their positions as the start and the end.
   */
  method ParseMap(input: string) returns (r: Result<Map>)
    requires exists i :: 0 <= i < |Lines(input)| && Lines(input)[i] != []
    ensures r.Ok? ==> fresh(r.value.grid) && r.value.grid.Valid()
    ensures r.Err? <==> !Rectangular(Lines(input)) ||
                        START !in Flatten(Lines(input)[FirstNonEmpty(Lines(input))..]) ||
                        END !in Flatten(Lines(input)[FirstNonEmpty(Lines(input))..])
    ensures r.Ok? ==>
      var ls := Lines(input);
      var cs := Flatten(ls[FirstNonEmpty(ls)..]);
      var g := r.value.grid;
      g.dx == |ls[FirstNonEmpty(ls)]| && g.dy == |ls| - FirstNonEmpty(ls) &&
      FirstIndex(cs, START) == g.ToIndex(r.value.start) && FirstIndex(cs, END) == g.ToIndex(r.value.end) &&
      g.cells == cs[g.ToIndex(r.value.start).value := OPEN][g.ToIndex(r.value.end).value := OPEN]
  {
    var parsed := Parse(input);
    if parsed.Err? {
      return Err(parsed.error);
    }
    var g := parsed.value;
    ghost var cs := g.cells;
    var start := FindGridRepl(g, START, OPEN);
    if start.Err? {
      return Err(start.error);
    }
    assert END in g.cells <==> END in cs by {
      assert forall i :: 0 <= i < |cs| && i != g.ToIndex(start.value).value ==> g.cells[i] == cs[i];
    }
    ghost var cs1 := g.cells;
    var end := FindGridRepl(g, END, OPEN);
    if end.Err? {
      return Err(end.error);
    }
    assert FirstIndex(cs1, END) == FirstIndex(cs, END) by {
      FirstIndexAfterWrite(cs, g.ToIndex(start.value).value, OPEN, END);
    }
    r := Ok(Map(g, start.value, end.value));
  }

  /** Writing a value other than `what` over a cell that held another value does not move the first `what`. */
  lemma {:induction false} FirstIndexAfterWrite(s: seq<char>, i: nat, v: char, what: char)
    requires i < |s| && v != what && s[i] != what
    ensures FirstIndex(s[i := v], what) == FirstIndex(s, what)
  {
    if i > 0 {
      assert s[i := v][1..] == s[1..][i - 1 := v];
      FirstIndexAfterWrite(s[1..], i - 1, v, what);
    }
  }

  // ---------------------------------------------------------------- search nodes

  datatype Ordering = Less | Equal | Greater

  function CmpInt(a: int, b: int): Ordering
  {
    if a < b then Less else if a == b then Equal else Greater
  }

  /** `Ordering::then_with`: the first comparison unless it is a tie. */
  function Then(o: Ordering, next: Ordering): Ordering
  {
    if o == Equal then next else o
  }

  /** A state of the search: a cell, the direction the reindeer faces, and the cost so far. */
  datatype Node = Node(p: Point, dir: Dir, cost: nat)
  {
    /** `with_cost`: the same state, `c` more expensive. */
    function WithCost(c: nat): (r: Node)
      ensures r.p == p && r.dir == dir && r.cost == cost + c
    {
      Node(p, dir, cost + c)
    }

    /** `ahead`: one cell on in the facing direction, for 1. */
    function Ahead(): (r: Node)
      ensures r.p.Sub(p) == dir.Step(1) && r.dir == dir && r.cost == cost + 1
    {
      Node(p.Add(dir.Step(1)), dir, cost + 1)
    }

    /** `left`: a quarter turn anticlockwise on the spot, for 1000. */
    function Left(): (r: Node)
      ensures r.p == p && r.dir.Right() == dir && r.cost == cost + 1000
    {
      Node(p, dir.Left(), cost + 1000)
    }

    /** `right`: a quarter turn clockwise on the spot, for 1000. */
    function Right(): (r: Node)
      ensures r.p == p && r.dir.Left() == dir && r.cost == cost + 1000
    {
      LeftOfRight(dir);
      Node(p, dir.Right(), cost + 1000)
    }
  }

  /** Turning right and then left faces the same way again. */
  lemma LeftOfRight(d: Dir)
    ensures d.Right().Left() == d
  {
  }

  /** Turning back and forth, or four times the same way, changes only the cost. */
  lemma TurnsCancel(n: Node)
    ensures n.Left().Right() == n.WithCost(2000) && n.Right().Left() == n.WithCost(2000)
    ensures n.Right().Right().Right().Right() == n.WithCost(4000)
    ensures n.Left().Left().Left().Left() == n.WithCost(4000)
  {
    RightFourTimes(n.dir);
    LeftOfRight(n.dir);
  }

  /** `SearchNode::cmp`: lexicographic on the cost, then `x`, then `y`, then the direction in declaration order. */
  function Cmp(a: Node, b: Node): Ordering
  {
    Then(CmpInt(a.cost, b.cost), Then(CmpInt(a.p.x, b.p.x), Then(CmpInt(a.p.y, b.p.y), CmpInt(a.dir.Index(), b.dir.Index()))))
  }

  /** `a` comes no later than `b`. */
  predicate NodeLeq(a: Node, b: Node)
  {
    Cmp(a, b) != Greater
  }

  /** The node order is a total order that ranks by cost first. */
  lemma CmpIsTotalOrder(a: Node, b: Node, c: Node)
    ensures Cmp(a, b) == Equal <==> a == b
    ensures Cmp(a, b) == Less <==> Cmp(b, a) == Greater
    ensures NodeLeq(a, b) || NodeLeq(b, a)
    ensures NodeLeq(a, b) && NodeLeq(b, c) ==> NodeLeq(a, c)
    ensures a.cost < b.cost ==> Cmp(a, b) == Less
    ensures NodeLeq(a, b) ==> a.cost <= b.cost
  {
    if a.dir.Index() == b.dir.Index() {
      DirIndexInjective(a.dir, b.dir);
    }
  }

  lemma DirIndexInjective(d: Dir, e: Dir)
    requires d.Index() == e.Index()
    ensures d == e
  {
  }

  // ---------------------------------------------------------------- the search space

  /** A best-cost table: four costs per cell, one per direction index. */
  ghost predicate Table(mc: Grid<seq<nat>>)
    reads mc
  {
    mc.Valid() && forall i :: 0 <= i < |mc.cells| ==> |mc.cells[i]| == 4
  }

  /** The best cost recorded for facing `d` at the inside cell `p`. */
  function Best(mc: Grid<seq<nat>>, p: Point, d: Dir): nat
    reads mc
    requires Table(mc) && mc.IsInside(p)
  {
    mc.cells[mc.ToIndex(p).value][d.Index()]
  }

  /** A best-cost table with slot `d` of cell `i` set to `c`. */
  function Lowered(cells: seq<seq<nat>>, i: nat, d: nat, c: nat): (r: seq<seq<nat>>)
    requires i < |cells| && d < |cells[i]|
    ensures |r| == |cells| && forall j :: 0 <= j < |r| ==> |r[j]| == |cells[j]|
  {
    var row: seq<nat> := cells[i][d := c];
    cells[i := row]
  }

  function Sum(s: seq<nat>): nat
  {
    if s == [] then 0 else Sum(s[..|s| - 1]) + s[|s| - 1]
  }

  /** The sum of all best costs: it falls with every push that is not ignored. */
  function Total(cs: seq<seq<nat>>): nat
  {
    if cs == [] then 0 else Total(cs[..|cs| - 1]) + Sum(cs[|cs| - 1])
  }

  lemma {:induction false} SumUpdate(s: seq<nat>, d: nat, x: nat)
    requires d < |s|
    ensures Sum(s[d := x]) + s[d] == Sum(s) + x
  {
    var n := |s| - 1;
    if d < n {
      assert s[d := x][..n] == s[..n][d := x];
      SumUpdate(s[..n], d, x);
    } else {
      assert s[d := x][..n] == s[..n];
    }
  }

  lemma {:induction false} TotalUpdate(cs: seq<seq<nat>>, i: nat, v: seq<nat>)
    requires i < |cs|
    ensures Total(cs[i := v]) + Sum(cs[i]) == Total(cs) + Sum(v)
  {
    var n := |cs| - 1;
    if i < n {
      assert cs[i := v][..n] == cs[..n][i := v];
      TotalUpdate(cs[..n], i, v);
    } else {
      assert cs[i := v][..n] == cs[..n];
    }
  }

  /** Lowering one best cost lowers the total. */
  lemma LoweredTotal(cells: seq<seq<nat>>, i: nat, d: nat, c: nat)
    requires i < |cells| && d < |cells[i]| && c < cells[i][d]
    ensures Total(Lowered(cells, i, d, c)) < Total(cells)
  {
    var row: seq<nat> := cells[i][d := c];
    SumUpdate(cells[i], d, c);
    TotalUpdate(cells, i, row);
  }

  /** The index of a node of `h` that no node of `h` comes before. */
  method MinIndex(h: seq<Node>) returns (k: nat)
    requires h != []
    ensures k < |h| && forall j :: 0 <= j < |h| ==> NodeLeq(h[k], h[j])
  {
    k := 0;
    for i := 1 to |h|
      invariant k < |h|
      invariant forall j :: 0 <= j < i ==> NodeLeq(h[k], h[j])
    {
      if Cmp(h[i], h[k]) == Less {
        forall j | 0 <= j < i ensures NodeLeq(h[i], h[j]) {
          CmpIsTotalOrder(h[i], h[k], h[j]);
        }
        k := i;
      } else {
        CmpIsTotalOrder(h[i], h[k], h[k]);
      }
    }
  }

  /** The work queue of the search: the nodes still to expand and, per cell and direction, the best cost pushed so far. */
  class SearchSpace
  {
    /** The `BinaryHeap<Reverse<SearchNode>>`, as a bag of nodes; `Pop` takes a least one. */
    var heap: seq<Node>
    /** `min_cost`: four best costs per cell, one per direction index. */
    const minCost: Grid<seq<nat>>

    ghost predicate Valid()
      reads this, minCost
    {
      Table(minCost)
    }

    /** `SearchSpace::new`: an empty queue, and no state reached yet. */
    constructor New(dx: int, dy: int)
      requires 0 <= dx && 0 <= dy
      ensures Valid() && fresh(minCost) && minCost.dx == dx && minCost.dy == dy
      ensures heap == []
      ensures forall p, d :: minCost.IsInside(p) ==> Best(minCost, p, d) == UMAX
    {
      heap := [];
      minCost := new Grid<seq<nat>>.New(dx, dy, [UMAX, UMAX, UMAX, UMAX]);
    }

    /**
     * `pop`: `None` on an empty queue; otherwise a node that no queued node comes before,
     * taken out of the queue once.
     */
    method Pop() returns (r: Option<Node>)
      requires Valid()
      modifies this
      ensures Valid()
      ensures r.None? <==> old(heap) == []
      ensures r.None? ==> heap == old(heap)
      ensures r.Some? ==> r.value in old(heap) && multiset(heap) == multiset(old(heap)) - multiset{r.value}
      ensures r.Some? ==> |heap| == |old(heap)| - 1
      ensures r.Some? ==> forall h :: h in old(heap) ==> NodeLeq(r.value, h)
    {
      if heap == [] {
        return None;
      }
      var h := heap;
      var k := MinIndex(h);
      r := Some(h[k]);
      assert h == h[..k] + [h[k]] + h[k + 1..];
      heap := h[..k] + h[k + 1..];
    }

    /**
     * `push`: a node at an inside cell that beats the best cost of its cell and direction
     * lowers that cost and is queued; any other node changes nothing.
     */
    method Push(n: Node)
      requires Valid()
      modifies this, minCost
      ensures Valid()
      ensures if minCost.IsInside(n.p) && n.cost < old(Best(minCost, n.p, n.dir)) then
          heap == old(heap) + [n] &&
          minCost.cells == Lowered(old(minCost.cells), minCost.ToIndex(n.p).value, n.dir.Index(), n.cost)
        else heap == old(heap) && minCost.cells == old(minCost.cells)
      ensures forall p, d :: minCost.IsInside(p) ==>
        Best(minCost, p, d) == if p == n.p && d == n.dir && n.cost < old(Best(minCost, p, d)) then n.cost else old(Best(minCost, p, d))
    {
      var x := minCost.Get(n.p);
      if x.Some? {
        var ic := x.value[n.dir.Index()];
        if n.cost < ic {
          var _ := minCost.Set(n.p, x.value[n.dir.Index() := n.cost]);
          heap := heap + [n];
          forall p, d | minCost.IsInside(p) && (p != n.p || d != n.dir)
            ensures Best(minCost, p, d) == old(Best(minCost, p, d))
          {
            if p != n.p {
              if minCost.ToIndex(p) == minCost.ToIndex(n.p) {
                minCost.ToIndexInjective(p, n.p);
              }
            } else if d.Index() == n.dir.Index() {
              DirIndexInjective(d, n.dir);
            }
          }
        }
      }
    }
  }

  // ---------------------------------------------------------------- runs through the maze

  /** One move of the reindeer from an inside state: a step onto open floor, or a quarter turn. */
  ghost predicate Move(g: Grid<char>, a: Node, b: Node)
    reads g
    requires g.Valid()
  {
    g.IsInside(a.p) && g.IsInside(b.p) && ((b == a.Ahead() && g.Get(b.p) == Some(OPEN)) || b == a.Left() || b == a.Right())
  }

  /** A run: moves one after another from facing east at `s` with nothing spent. */
  ghost predicate IsRun(g: Grid<char>, s: Point, t: seq<Node>)
    reads g
    requires g.Valid()
  {
    |t| > 0 && t[0] == Node(s, East, 0) && g.IsInside(s) &&
    forall i :: 0 <= i < |t| - 1 ==> Move(g, t[i], t[i + 1])
  }

  function Last(t: seq<Node>): Node
    requires |t| > 0
  {
    t[|t| - 1]
  }

  /** Some run from `s` ends at `e` having cost `c`. */
  ghost predicate Reaches(g: Grid<char>, s: Point, e: Point, c: nat)
    reads g
    requires g.Valid()
  {
    exists t :: IsRun(g, s, t) && Last(t).p == e && Last(t).cost == c
  }

  /** A move never gets cheaper, and the same move from the same state at a cost no higher costs no more. */
  lemma MoveShift(g: Grid<char>, a: Node, a': Node, b: Node) returns (b': Node)
    requires g.Valid() && Move(g, a, b) && a'.p == a.p && a'.dir == a.dir && a'.cost <= a.cost
    ensures a.cost <= b.cost
    ensures Move(g, a', b') && b'.p == b.p && b'.dir == b.dir && b'.cost <= b.cost
  {
    if b == a.Ahead() && g.Get(b.p) == Some(OPEN) {
      b' := a'.Ahead();
    } else if b == a.Left() {
      b' := a'.Left();
    } else {
      b' := a'.Right();
    }
  }

  /** Every best cost below `UMAX` belongs to a node still queued or already expanded. */
  ghost predicate Witnessed(mc: Grid<seq<nat>>, heap: seq<Node>, done: set<Node>)
    reads mc
    requires Table(mc)
  {
    forall p, d :: mc.IsInside(p) && Best(mc, p, d) < UMAX ==>
      Node(p, d, Best(mc, p, d)) in heap || Node(p, d, Best(mc, p, d)) in done
  }

  /** Every move out of an expanded node has been pushed: its target's best cost is at most the move's. */
  ghost predicate Closed(g: Grid<char>, mc: Grid<seq<nat>>, done: set<Node>)
    reads g, mc
    requires g.Valid() && Table(mc) && mc.dx == g.dx && mc.dy == g.dy
  {
    forall e, b :: e in done && Move(g, e, b) ==> Best(mc, b.p, b.dir) <= b.cost
  }

  /** The invariant of `shortest_path_cost` but closure: `trails` holds a run to each queued node. */
  ghost predicate Sound(g: Grid<char>, s: Point, e: Point, mc: Grid<seq<nat>>, heap: seq<Node>,
                        done: set<Node>, trails: map<Node, seq<Node>>)
    reads g, mc
  {
    g.Valid() && Table(mc) && mc.dx == g.dx && mc.dy == g.dy &&
    Witnessed(mc, heap, done) &&
    (g.IsInside(s) ==> Best(mc, s, East) == 0) &&
    (forall x :: x in done ==> x.p != e) &&
    (forall x :: x in heap ==> x in trails && IsRun(g, s, trails[x]) && Last(trails[x]) == x)
  }

  /** The invariant of `shortest_path_cost`. */
  ghost predicate Searching(g: Grid<char>, s: Point, e: Point, mc: Grid<seq<nat>>, heap: seq<Node>,
                            done: set<Node>, trails: map<Node, seq<Node>>)
    reads g, mc
  {
    Sound(g, s, e, mc, heap, done, trails) && Closed(g, mc, done)
  }

  /**
   * The frontier argument of Dijkstra's algorithm: every run cheaper than `UMAX` has either a
   * queued node no dearer than it, or its final state expanded at no higher cost.
   */
  lemma {:induction false} Frontier(g: Grid<char>, s: Point, e: Point, mc: Grid<seq<nat>>, heap: seq<Node>,
                                    done: set<Node>, trails: map<Node, seq<Node>>, t: seq<Node>) returns (h: Node)
    requires Searching(g, s, e, mc, heap, done, trails) && IsRun(g, s, t) && Last(t).cost < UMAX
    ensures (h in heap && h.cost <= Last(t).cost) ||
            (h in done && h.p == Last(t).p && h.dir == Last(t).dir && h.cost <= Last(t).cost)
    decreases |t|
  {
    if |t| == 1 {
      h := Node(s, East, 0);
    } else {
      var t' := t[..|t| - 1];
      assert IsRun(g, s, t') by {
        forall i | 0 <= i < |t'| - 1 ensures Move(g, t'[i], t'[i + 1]) {
          assert Move(g, t[i], t[i + 1]);
        }
      }
      var a, b := Last(t'), Last(t);
      assert Move(g, a, b) by {
        assert Move(g, t[|t| - 2], t[|t| - 1]);
      }
      var _ := MoveShift(g, a, a, b);
      var h' := Frontier(g, s, e, mc, heap, done, trails, t');
      if h' in heap && h'.cost <= a.cost {
        h := h';
      } else {
        var b' := MoveShift(g, a, h', b);
        h := Node(b.p, b.dir, Best(mc, b.p, b.dir));
      }
    }
  }

  // ---------------------------------------------------------------- shortest_path_cost

  /** Taking a node that is not at the end off the queue moves it, for the invariant, to the expanded ones. */
  lemma PopSound(g: Grid<char>, s: Point, e: Point, mc: Grid<seq<nat>>, heap0: seq<Node>, heap: seq<Node>,
                 done: set<Node>, trails: map<Node, seq<Node>>, v: Node)
    requires Searching(g, s, e, mc, heap0, done, trails)
    requires v in heap0 && v.p != e && multiset(heap) == multiset(heap0) - multiset{v}
    ensures Sound(g, s, e, mc, heap, done + {v}, trails)
    ensures v in trails && IsRun(g, s, trails[v]) && Last(trails[v]) == v
  {
    forall x | x in heap ensures x in heap0 {
      assert x in multiset(heap);
    }
    forall x | x in heap0 && x != v ensures x in heap {
      assert x in multiset(heap0);
      assert x in multiset(heap);
    }
  }

  /** One `push` of a move out of the node being expanded keeps the invariant and records the move. */
  method PushMove(g: Grid<char>, s: Point, e: Point, work: SearchSpace, v: Node, b: Node,
                  ghost done: set<Node>, ghost trails: map<Node, seq<Node>>) returns (ghost trails': map<Node, seq<Node>>)
    requires work.Valid() && Sound(g, s, e, work.minCost, work.heap, done + {v}, trails) && Closed(g, work.minCost, done)
    requires v in trails && IsRun(g, s, trails[v]) && Last(trails[v]) == v && Move(g, v, b)
    modifies work, work.minCost
    ensures work.Valid() && Sound(g, s, e, work.minCost, work.heap, done + {v}, trails') && Closed(g, work.minCost, done)
    ensures v in trails' && trails'[v] == trails[v]
    ensures Best(work.minCost, b.p, b.dir) <= b.cost
    ensures forall q, d :: work.minCost.IsInside(q) ==> Best(work.minCost, q, d) <= old(Best(work.minCost, q, d))
    ensures Total(work.minCost.cells) <= old(Total(work.minCost.cells))
    ensures Total(work.minCost.cells) < old(Total(work.minCost.cells)) || work.heap == old(work.heap)
  {
    ghost var cells := work.minCost.cells;
    var _ := MoveShift(g, v, v, b);
    work.Push(b);
    trails' := trails[b := trails[v] + [b]];
    assert IsRun(g, s, trails'[b]) by {
      var t := trails[v] + [b];
      forall i | 0 <= i < |t| - 1 ensures Move(g, t[i], t[i + 1]) {
        if i < |t| - 2 {
          assert Move(g, trails[v][i], trails[v][i + 1]);
        }
      }
    }
    if work.heap != old(work.heap) {
      LoweredTotal(cells, work.minCost.ToIndex(b.p).value, b.dir.Index(), b.cost);
    }
  }

  /** Expanding a node pushes the step ahead onto open floor and both turns, which closes the node. */
  method Expand(g: Grid<char>, s: Point, e: Point, work: SearchSpace, v: Node,
                ghost done: set<Node>, ghost trails: map<Node, seq<Node>>) returns (ghost trails': map<Node, seq<Node>>)
    requires work.Valid() && Sound(g, s, e, work.minCost, work.heap, done + {v}, trails) && Closed(g, work.minCost, done)
    requires v in trails && IsRun(g, s, trails[v]) && Last(trails[v]) == v
    modifies work, work.minCost
    ensures work.Valid() && Searching(g, s, e, work.minCost, work.heap, done + {v}, trails')
    ensures Total(work.minCost.cells) <= old(Total(work.minCost.cells))
    ensures Total(work.minCost.cells) < old(Total(work.minCost.cells)) || work.heap == old(work.heap)
  {
    var ahead := v.Ahead();
    trails' := trails;
    assert g.IsInside(v.p) by {
      if |trails[v]| > 1 {
        assert Move(g, trails[v][|trails[v]| - 2], trails[v][|trails[v]| - 1]);
      }
    }
    ghost var t0, h0 := Total(work.minCost.cells), work.heap;
    if g.Get(ahead.p) == Some(OPEN) {
      trails' := PushMove(g, s, e, work, v, ahead, done, trails');
    }
    ghost var t1, h1 := Total(work.minCost.cells), work.heap;
    trails' := PushMove(g, s, e, work, v, v.Left(), done, trails');
    ghost var t2, h2 := Total(work.minCost.cells), work.heap;
    trails' := PushMove(g, s, e, work, v, v.Right(), done, trails');
    assert Total(work.minCost.cells) < t0 || work.heap == h0;
    ClosedAdd(g, work.minCost, done, v);
  }

  /** A node whose step ahead onto open floor and both turns have been pushed is closed. */
  lemma ClosedAdd(g: Grid<char>, mc: Grid<seq<nat>>, done: set<Node>, v: Node)
    requires g.Valid() && Table(mc) && mc.dx == g.dx && mc.dy == g.dy && Closed(g, mc, done) && g.IsInside(v.p)
    requires g.Get(v.Ahead().p) == Some(OPEN) ==> Best(mc, v.Ahead().p, v.dir) <= v.Ahead().cost
    requires Best(mc, v.p, v.Left().dir) <= v.Left().cost && Best(mc, v.p, v.Right().dir) <= v.Right().cost
    ensures Closed(g, mc, done + {v})
  {
  }

  /**
   * `shortest_path_cost`: Dijkstra's search from facing east at the start. The cost of the
   * first node taken off the queue at the end is the cost of some run there, and no run there
   * below `UMAX` is cheaper; `None` means no run below `UMAX` gets there.
   */
  method ShortestPathCost(m: Map) returns (r: Option<nat>)
    requires m.grid.Valid()
    ensures r.Some? ==> Reaches(m.grid, m.start, m.end, r.value)
    ensures r.Some? ==> forall t :: IsRun(m.grid, m.start, t) && Last(t).p == m.end && Last(t).cost < UMAX ==>
      r.value <= Last(t).cost
    ensures r.None? ==> forall t :: IsRun(m.grid, m.start, t) && Last(t).cost < UMAX ==> Last(t).p != m.end
  {
    var g := m.grid;
    var work := new SearchSpace.New(g.dx, g.dy);
    var n0 := Node(m.start, East, 0);
    work.Push(n0);
    ghost var done: set<Node> := {};
    ghost var trails: map<Node, seq<Node>> := map[n0 := [n0]];
    while true
      invariant work.Valid() && fresh(work) && fresh(work.minCost)
      invariant Searching(g, m.start, m.end, work.minCost, work.heap, done, trails)
      decreases Total(work.minCost.cells), |work.heap|
    {
      ghost var heap0, total0 := work.heap, Total(work.minCost.cells);
      var n := work.Pop();
      if n.None? {
        forall t | IsRun(g, m.start, t) && Last(t).cost < UMAX ensures Last(t).p != m.end {
          var _ := Frontier(g, m.start, m.end, work.minCost, heap0, done, trails, t);
        }
        return None;
      }
      var v := n.value;
      if v.p == m.end {
        forall t | IsRun(g, m.start, t) && Last(t).p == m.end && Last(t).cost < UMAX ensures v.cost <= Last(t).cost {
          var h := Frontier(g, m.start, m.end, work.minCost, heap0, done, trails, t);
          if h in heap0 {
            CmpIsTotalOrder(v, h, h);
          }
        }
        assert Reaches(g, m.start, m.end, v.cost) by {
          assert IsRun(g, m.start, trails[v]) && Last(trails[v]) == v;
        }
        return Some(v.cost);
      }
      PopSound(g, m.start, m.end, work.minCost, heap0, work.heap, done, trails, v);
      ghost var heap1 := work.heap;
      trails := Expand(g, m.start, m.end, work, v, done, trails);
      done := done + {v};
      assert Total(work.minCost.cells) < total0 || (Total(work.minCost.cells) == total0 && |work.heap| == |heap1| < |heap0|);
    }
  }
}

/**
 * Day 23: a network of computers named by two lowercase letters, with undirected
 * links. Part one counts the triangles that hold a computer whose name starts with
 * `t`; part two grows every triangle one computer at a time into larger cliques and
 * names the largest one found, its computers in order and separated by commas.
 */
module Day23 {
  import opened Wrappers
  import opened Text
  import opened Util

  // ---------------------------------------------------------------- computers

  /** `Comp`: the two bytes of a computer's name; computers are ordered by their name. */
  datatype Comp = Comp(hi: char, lo: char)

  predicate Lowercase(c: char)
  {
    'a' <= c <= 'z'
  }

  /** `as_str`: the name of a computer. */
  function Name(c: Comp): (r: string)
  {
    [c.hi, c.lo]
  }

  /** `char0`: the first letter of a computer's name. */
  function Char0(c: Comp): char
  {
    c.hi
  }

  /** The derived order on `[u8; 2]`: first letters first, then second letters. */
  predicate Below(a: Comp, b: Comp)
  {
    a.hi < b.hi || (a.hi == b.hi && a.lo < b.lo)
  }

  predicate AtMost(a: Comp, b: Comp)
  {
    a == b || Below(a, b)
  }

  /** The order is strict and total. */
  lemma BelowTotal(a: Comp, b: Comp)
    ensures !(Below(a, b) && Below(b, a))
    ensures a != b ==> Below(a, b) || Below(b, a)
  {
  }

  /** `Comp::parse`: exactly two characters, both lowercase ASCII letters; the name reads it back. */
  function ParseComp(src: string): (r: Option<Comp>)
    ensures r.Some? <==> |src| == 2 && Lowercase(src[0]) && Lowercase(src[1])
    ensures r.Some? ==> Name(r.value) == src && Lowercase(Char0(r.value))
  {
    if |src| == 2 && Lowercase(src[0]) && Lowercase(src[1]) then Some(Comp(src[0], src[1])) else None
  }

  /** A computer with a lowercase name parses back from its name. */
  lemma ParseName(c: Comp)
    requires Lowercase(c.hi) && Lowercase(c.lo)
    ensures ParseComp(Name(c)) == Some(c)
  {
  }

  predicate LinkLetters(line: string)
    requires |line| == 5
  {
    Lowercase(line[0]) && Lowercase(line[1]) && Lowercase(line[3]) && Lowercase(line[4])
  }

  /** `parse_link`: two computers on either side of the first `-`. */
  function ParseLink(line: string): (r: Option<(Comp, Comp)>)
    ensures r.Some? <==> (|line| == 5 && line[2] == '-' && LinkLetters(line))
    ensures r.Some? ==> line == Name(r.value.0) + "-" + Name(r.value.1)
  {
    match SplitOnce(line, '-')
    case None => None
    case Some((l, r)) =>
      match ParseComp(l)
      case None => None
      case Some(a) =>
        match ParseComp(r)
        case None => None
        case Some(b) => Some((a, b))
  }

  /** A link written as `ab-cd` parses back to its two computers. */
  lemma ParseLinkOfNames(a: Comp, b: Comp)
    requires Lowercase(a.hi) && Lowercase(a.lo) && Lowercase(b.hi) && Lowercase(b.lo)
    ensures ParseLink(Name(a) + "-" + Name(b)) == Some((a, b))
  {
    var line := Name(a) + "-" + Name(b);
    assert line == [a.hi, a.lo, '-', b.hi, b.lo];
    SplitOnceAt(Name(a), '-', Name(b));
  }

  // ---------------------------------------------------------------- links

  /** The links of a network: each computer with the set of computers it links to. */
  type Links = map<Comp, set<Comp>>

  /** `has_link`: `r` is in the link set of `l`. */
  predicate Has(m: Links, l: Comp, r: Comp)
  {
    l in m && r in m[l]
  }

  /** `get_links`: the link set of `c`, empty for an unknown computer. */
  function LinksOf(m: Links, c: Comp): (r: set<Comp>)
    ensures c !in m ==> r == {}
    ensures forall x :: x in r <==> Has(m, c, x)
  {
    if c in m then m[c] else {}
  }

  /** Every link goes both ways. */
  ghost predicate Symmetric(m: Links)
  {
    forall l, r :: Has(m, l, r) ==> Has(m, r, l)
  }

  /** Every computer present has at least one link. */
  ghost predicate Full(m: Links)
  {
    forall c :: c in m ==> m[c] != {}
  }

  /** `add_link_impl`: `r` joins the link set of `l`, which is created when `l` is new. */
  function AddTo(m: Links, l: Comp, r: Comp): (m': Links)
    ensures m'.Keys == m.Keys + {l}
    ensures forall a, b :: Has(m', a, b) <==> Has(m, a, b) || (a == l && b == r)
  {
    m[l := LinksOf(m, l) + {r}]
  }

  /** `add_link`: the link in both directions. */
  function AddBoth(m: Links, l: Comp, r: Comp): (m': Links)
  {
    AddTo(AddTo(m, l, r), r, l)
  }

  /** Adding a link in both directions adds exactly the two directed links, and keeps the network symmetric and full. */
  lemma AddBothLinks(m: Links, l: Comp, r: Comp)
    ensures forall a, b :: Has(AddBoth(m, l, r), a, b) <==> Has(m, a, b) || (a == l && b == r) || (a == r && b == l)
    ensures Symmetric(m) ==> Symmetric(AddBoth(m, l, r))
    ensures Full(m) ==> Full(AddBoth(m, l, r))
  {
    var m' := AddBoth(m, l, r);
    if Full(m) {
      forall c | c in m' ensures m'[c] != {} {
        if c == r || c == l {
          assert Has(m', l, r);
          assert Has(m', r, l);
        } else {
          assert m'[c] == m[c];
        }
      }
    }
  }

  /** The network that a sequence of links builds, one `add_link` after another. */
  function Build(ps: seq<(Comp, Comp)>): Links
  {
    if ps == [] then map[] else AddBoth(Build(ps[..|ps| - 1]), ps[|ps| - 1].0, ps[|ps| - 1].1)
  }

  /** The built network links exactly the pairs that were given, in both directions. */
  lemma {:induction false} BuildLinks(ps: seq<(Comp, Comp)>, a: Comp, b: Comp)
    ensures Has(Build(ps), a, b) <==> exists i :: 0 <= i < |ps| && (ps[i] == (a, b) || ps[i] == (b, a))
  {
    if ps != [] {
      var init := ps[..|ps| - 1];
      BuildLinks(init, a, b);
      AddBothLinks(Build(init), ps[|ps| - 1].0, ps[|ps| - 1].1);
      if Has(Build(ps), a, b) && !Has(Build(init), a, b) {
        assert ps[|ps| - 1] == (a, b) || ps[|ps| - 1] == (b, a);
      }
      if i :| 0 <= i < |ps| && (ps[i] == (a, b) || ps[i] == (b, a)) {
        if i < |ps| - 1 {
          assert init[i] == ps[i];
        }
      }
    }
  }

  /** The built network is symmetric and full. */
  lemma {:induction false} BuildShape(ps: seq<(Comp, Comp)>)
    ensures Symmetric(Build(ps)) && Full(Build(ps))
  {
    if ps != [] {
      BuildShape(ps[..|ps| - 1]);
      AddBothLinks(Build(ps[..|ps| - 1]), ps[|ps| - 1].0, ps[|ps| - 1].1);
    }
  }

  // ---------------------------------------------------------------- subnets

  /** `p` is a walk along links. */
  predicate Walk(m: Links, p: seq<Comp>)
  {
    |p| >= 1 && (|p| == 1 || (Walk(m, p[..|p| - 1]) && Has(m, p[|p| - 2], p[|p| - 1])))
  }

  /** `b` is reached from `a` along one link or more. */
  ghost predicate Reaches(m: Links, a: Comp, b: Comp)
  {
    exists p :: |p| >= 2 && Walk(m, p) && p[0] == a && p[|p| - 1] == b
  }

  /** The computers reached from `c`. */
  ghost function Reached(m: Links, c: Comp): set<Comp>
  {
    set x | x in Nodes(m) && Reaches(m, c, x)
  }

  /** `s` holds the links of `c` and the links of each of its computers. */
  ghost predicate Closed(m: Links, c: Comp, s: set<Comp>)
  {
    LinksOf(m, c) <= s && forall x :: x in s ==> LinksOf(m, x) <= s
  }

  /** A walk from `c` ends inside every closed set of `c`. */
  lemma {:induction false} WalkEnds(m: Links, c: Comp, s: set<Comp>, p: seq<Comp>)
    requires Closed(m, c, s) && Walk(m, p) && |p| >= 2 && p[0] == c
    ensures p[|p| - 1] in s
    decreases |p|
  {
    var init := p[..|p| - 1];
    if |p| > 2 {
      WalkEnds(m, c, s, init);
    }
    assert p[|p| - 1] in LinksOf(m, p[|p| - 2]);
  }

  /** A walk goes on by one more link. */
  lemma WalkOn(m: Links, p: seq<Comp>, x: Comp)
    requires Walk(m, p) && Has(m, p[|p| - 1], x)
    ensures Walk(m, p + [x])
  {
    assert (p + [x])[..|p|] == p;
  }

  /** The least closed set of `c` is the set of computers reached from `c`. */
  lemma LeastClosedReached(m: Links, c: Comp, r: set<Comp>)
    requires Closed(m, c, r) && forall s :: Closed(m, c, s) ==> r <= s
    ensures forall x :: x in r <==> Reaches(m, c, x)
  {
    forall x | Reaches(m, c, x) ensures x in r {
      var p :| |p| >= 2 && Walk(m, p) && p[0] == c && p[|p| - 1] == x;
      WalkEnds(m, c, r, p);
    }
    var s := set x | x in r && Reaches(m, c, x);
    forall l | l in LinksOf(m, c) ensures l in s {
      WalkOn(m, [c], l);
    }
    forall x, l | x in s && l in LinksOf(m, x) ensures l in s {
      var p :| |p| >= 2 && Walk(m, p) && p[0] == c && p[|p| - 1] == x;
      WalkOn(m, p, l);
      assert (p + [l])[0] == c;
    }
    assert Closed(m, c, s);
  }

  /** The computers reached from `c` are those of the least closed set. */
  lemma ReachedIsLeast(m: Links, c: Comp, r: set<Comp>)
    requires forall x :: x in r <==> Reaches(m, c, x)
    ensures r == Reached(m, c)
  {
    forall x | x in r ensures x in Nodes(m) {
      var p :| |p| >= 2 && Walk(m, p) && p[0] == c && p[|p| - 1] == x;
      assert Walk(m, p[..|p| - 1]) && Has(m, p[|p| - 2], x);
      NodesOfLink(m, p[|p| - 2], x);
    }
  }

  /** In a symmetric and full network a computer with links reaches itself. */
  lemma ReachesSelf(m: Links, c: Comp)
    requires Symmetric(m) && Full(m) && c in m
    ensures c in Reached(m, c)
  {
    var l :| l in m[c];
    assert Has(m, c, l) && Has(m, l, c);
    WalkOn(m, [c], l);
    WalkOn(m, [c, l], c);
    NodesOfLink(m, c, l);
  }

  /** The links of the computers outside `r`. */
  ghost function Without(m: Links, r: set<Comp>): Links
  {
    map x | x in m && x !in r :: m[x]
  }

  /** The links of the computers inside `r`. */
  ghost function Within(m: Links, r: set<Comp>): Links
  {
    map x | x in m && x in r :: m[x]
  }

  /**
   * In a symmetric and full network, the computers reached from `c` hold every link of
   * their members, and the rest of the network is symmetric and full again.
   */
  lemma SplitReached(m: Links, c: Comp)
    requires Symmetric(m) && Full(m)
    ensures forall x, y :: x in Reached(m, c) && Has(m, x, y) ==> y in Reached(m, c)
    ensures Symmetric(Without(m, Reached(m, c))) && Full(Without(m, Reached(m, c)))
  {
    var r := Reached(m, c);
    forall x, y | x in r && Has(m, x, y) ensures y in r {
      var p :| |p| >= 2 && Walk(m, p) && p[0] == c && p[|p| - 1] == x;
      WalkOn(m, p, y);
      assert (p + [y])[0] == c;
      NodesOfLink(m, x, y);
    }
    var w := Without(m, r);
    forall x, y | Has(w, x, y) ensures Has(w, y, x) {
      assert Has(m, x, y) && Has(m, y, x);
    }
  }

  /** Moving one more computer out of the rest and into the part. */
  lemma MoveOne(m: Links, d: set<Comp>, x: Comp)
    requires x !in d
    ensures x in Without(m, d) <==> x in m
    ensures x in m ==> Without(m, d)[x] == m[x]
    ensures Without(m, d + {x}) == Without(m, d) - {x}
    ensures Within(m, d + {x}) == if x in m then Within(m, d)[x := m[x]] else Within(m, d)
  {
  }

  /**
   * The `for` loop of `subnet_comps`: each item not yet in the set joins it and is pushed
   * onto the work list.
   */
  method Follow<T>(items: set<T>, r: set<T>, work: seq<T>) returns (r': set<T>, work': seq<T>)
    ensures r' == r + items
    ensures forall x :: x in work' <==> x in work || (x in items && x !in r)
    ensures r' == r ==> work' == work
  {
    var todo := items;
    r', work' := r, work;
    while todo != {}
      invariant todo <= items && r' == r + (items - todo)
      invariant forall x :: x in work' <==> x in work || (x in items - todo && x !in r)
      invariant r' == r ==> work' == work
      decreases |todo|
    {
      var x :| x in todo;
      todo := todo - {x};
      if x !in r' {
        r' := r' + {x};
        work' := work' + [x];
      }
    }
  }

  /** Following the links of a computer already known to be reached keeps the set inside every closed set. */
  lemma FollowInside(m: Links, c: Comp, r: set<Comp>, comp: Comp)
    requires comp == c || comp in r
    requires forall s :: Closed(m, c, s) ==> r <= s
    ensures forall s :: Closed(m, c, s) ==> r + LinksOf(m, comp) <= s
  {
  }

  /**
   * The loop of `subnet_comps`: pop a computer from the work list and follow its links,
   * each computer reached for the first time joining the set and the work list.
   */
  method Explore(m: Links, c: Comp) returns (r: set<Comp>)
    ensures forall x :: x in r <==> Reaches(m, c, x)
  {
    var work := [c];
    r := {};
    while work != []
      invariant r <= Nodes(m)
      invariant forall w :: w in work ==> w == c || w in r
      invariant forall s :: Closed(m, c, s) ==> r <= s
      invariant forall x :: x in r && x !in work ==> LinksOf(m, x) <= r
      invariant c !in work ==> LinksOf(m, c) <= r
      decreases |Nodes(m) - r|, |work|
    {
      var comp := work[|work| - 1];
      PopMembers(work);
      work := work[..|work| - 1];
      ghost var r0 := r;
      FollowInside(m, c, r, comp);
      if comp in m {
        r, work := Follow(m[comp], r, work);
        forall x | x in m[comp] ensures x in Nodes(m) {
          NodesOfLink(m, comp, x);
        }
        if r != r0 {
          Fewer(Nodes(m), r0, r);
        }
      }
    }
    LeastClosedReached(m, c, r);
  }

  /** The fold of `extract_subnet`: each computer of `r` that has links moves them from the rest to the part. */
  method Move(m: Links, r: set<Comp>) returns (rest: Links, part: Links)
    ensures rest == Without(m, r) && part == Within(m, r)
  {
    rest, part := m, map[];
    var todo := r;
    ghost var done: set<Comp> := {};
    assert Without(m, {}) == m;
    assert Within(m, {}) == map[];
    while todo != {}
      invariant todo + done == r && todo !! done
      invariant rest == Without(m, done)
      invariant part == Within(m, done)
      decreases |todo|
    {
      var x :| x in todo;
      MoveOne(m, done, x);
      if x in rest {
        part := part[x := rest[x]];
        rest := rest - {x};
      }
      todo := todo - {x};
      done := done + {x};
    }
  }

  /** Part `i` is non-empty and keeps the links its computers have in `m`. */
  ghost predicate KeptAt(m: Links, parts: seq<Links>, i: int)
    requires 0 <= i < |parts|
  {
    parts[i] != map[] && parts[i] == Within(m, parts[i].Keys)
  }

  /** Parts `i` and `j` share no computer. */
  ghost predicate ApartAt(parts: seq<Links>, i: int, j: int)
    requires 0 <= i < |parts| && 0 <= j < |parts|
  {
    parts[i].Keys !! parts[j].Keys
  }

  /** Computer `x` is in part `i`. */
  ghost predicate InPart(parts: seq<Links>, i: int, x: Comp)
  {
    0 <= i < |parts| && x in parts[i]
  }

  /** Part `i` holds every computer its members link to. */
  ghost predicate WholeAt(m: Links, parts: seq<Links>, i: int)
    requires 0 <= i < |parts|
  {
    forall x, y :: x in parts[i] && Has(m, x, y) ==> y in parts[i]
  }

  /**
   * `parts` split the computers `taken` of `m` into connected parts that keep their links:
   * each is non-empty, keeps its links, shares no computer with another, and holds every
   * computer its members link to; together they hold exactly the computers taken.
   */
  ghost predicate Partition(m: Links, parts: seq<Links>, taken: set<Comp>)
  {
    (forall i :: 0 <= i < |parts| ==> KeptAt(m, parts, i))
    && (forall i, j :: 0 <= i < j < |parts| ==> ApartAt(parts, i, j))
    && (forall x :: x in taken <==> exists i :: InPart(parts, i, x))
    && (forall i :: 0 <= i < |parts| ==> WholeAt(m, parts, i))
  }

  /** The part reached from `c` in the rest of the network: non-empty, keeping its links, outside `taken`. */
  lemma PartShape(m: Links, taken: set<Comp>, cur: Links, c: Comp)
    requires cur == Without(m, taken) && Symmetric(cur) && Full(cur) && c in cur
    ensures var part := Within(cur, Reached(cur, c));
      c in part && part == Within(m, part.Keys) && part.Keys !! taken
  {
    ReachesSelf(cur, c);
    var part := Within(cur, Reached(cur, c));
    assert part == Within(m, part.Keys);
  }

  /** The part reached from `c` holds every computer its members link to in `m`. */
  lemma PartWhole(m: Links, taken: set<Comp>, cur: Links, c: Comp)
    requires cur == Without(m, taken) && Symmetric(cur) && Full(cur)
    ensures var part := Within(cur, Reached(cur, c));
      forall x, y :: x in part && Has(m, x, y) ==> y in part
  {
    SplitReached(cur, c);
    var part := Within(cur, Reached(cur, c));
    forall x, y | x in part && Has(m, x, y) ensures y in part {
      assert Has(cur, x, y) && Has(cur, y, x);
    }
  }

  /** What is left after the part reached from `c` is the network without everything taken, symmetric and full. */
  lemma PartRest(m: Links, taken: set<Comp>, cur: Links, c: Comp)
    requires cur == Without(m, taken) && Symmetric(cur) && Full(cur)
    ensures var r := Reached(cur, c); var part := Within(cur, r);
      Without(cur, r) == Without(m, taken + part.Keys) && Symmetric(Without(cur, r)) && Full(Without(cur, r))
  {
    SplitReached(cur, c);
    var r := Reached(cur, c);
    var part := Within(cur, r);
    assert Without(cur, r) == Without(m, taken + part.Keys);
  }

  /** A further part, non-empty, outside `taken` and whole, extends the partition. */
  lemma PartitionSnoc(m: Links, parts: seq<Links>, taken: set<Comp>, part: Links)
    requires Partition(m, parts, taken)
    requires part != map[] && part == Within(m, part.Keys) && part.Keys !! taken
    requires forall x, y :: x in part && Has(m, x, y) ==> y in part
    ensures Partition(m, parts + [part], taken + part.Keys)
  {
    var ps := parts + [part];
    var n := |parts|;
    forall i | 0 <= i < |ps| ensures KeptAt(m, ps, i) && WholeAt(m, ps, i) {
      if i < n {
        assert KeptAt(m, parts, i) && WholeAt(m, parts, i);
        assert ps[i] == parts[i];
      }
    }
    forall i, j | 0 <= i < j < |ps| ensures ApartAt(ps, i, j) {
      if j == n {
        forall x | x in parts[i] ensures x in taken {
          assert InPart(parts, i, x);
        }
      } else {
        assert ApartAt(parts, i, j);
      }
    }
    forall x ensures x in taken + part.Keys <==> exists i :: InPart(ps, i, x) {
      if x in part {
        assert InPart(ps, n, x);
      } else if x in taken {
        var i :| InPart(parts, i, x);
        assert InPart(ps, i, x);
      }
      if i :| InPart(ps, i, x) {
        if i < n {
          assert InPart(parts, i, x);
        }
      }
    }
  }

  /** Taking out a part that holds a computer leaves fewer computers. */
  lemma FewerKeys(cur: Links, r: set<Comp>, c: Comp)
    requires c in cur && c in r
    ensures |Without(cur, r).Keys| < |cur.Keys|
  {
    var w := Without(cur, r).Keys;
    assert w <= cur.Keys - {c};
    assert w + (cur.Keys - {c} - w) == cur.Keys - {c};
  }

  /**
   * In the rest of the network, symmetric and full, the part reached from one of its
   * computers extends the partition, and what is left is smaller, the network without
   * everything taken, and symmetric and full again.
   */
  lemma NextPart(m: Links, parts: seq<Links>, taken: set<Comp>, cur: Links, c: Comp)
    requires Partition(m, parts, taken) && cur == Without(m, taken) && Symmetric(cur) && Full(cur) && c in cur
    ensures var r := Reached(cur, c); var part := Within(cur, r);
      Partition(m, parts + [part], taken + part.Keys)
      && Without(cur, r) == Without(m, taken + part.Keys) && Symmetric(Without(cur, r)) && Full(Without(cur, r))
      && |Without(cur, r).Keys| < |cur.Keys|
  {
    PartShape(m, taken, cur, c);
    PartWhole(m, taken, cur, c);
    PartRest(m, taken, cur, c);
    PartitionSnoc(m, parts, taken, Within(cur, Reached(cur, c)));
    FewerKeys(cur, Reached(cur, c), c);
  }

  /** Nothing is left only when everything was taken. */
  lemma AllTaken(m: Links, taken: set<Comp>)
    requires Without(m, taken) == map[] && taken <= m.Keys
    ensures taken == m.Keys
  {
    forall x | x in m ensures x in taken {
      assert x !in Without(m, taken);
    }
  }

  /**
   * A partition of all of `m`: each part is non-empty and keeps its links, no two parts
   * share a computer, every computer is in a part, and each part holds every computer
   * its members link to.
   */
  lemma PartitionFacts(m: Links, parts: seq<Links>)
    requires Partition(m, parts, m.Keys)
    ensures forall i :: 0 <= i < |parts| ==> parts[i] != map[] && parts[i] == Within(m, parts[i].Keys)
    ensures forall i, j :: 0 <= i < j < |parts| ==> parts[i].Keys !! parts[j].Keys
    ensures forall x :: x in m ==> exists i :: 0 <= i < |parts| && x in parts[i]
    ensures forall i, x, y :: 0 <= i < |parts| && x in parts[i] && Has(m, x, y) ==> y in parts[i]
  {
    forall i | 0 <= i < |parts| ensures parts[i] != map[] && parts[i] == Within(m, parts[i].Keys) {
      assert KeptAt(m, parts, i);
    }
    forall i, j | 0 <= i < j < |parts| ensures parts[i].Keys !! parts[j].Keys {
      assert ApartAt(parts, i, j);
    }
    forall i, x, y | 0 <= i < |parts| && x in parts[i] && Has(m, x, y) ensures y in parts[i] {
      assert WholeAt(m, parts, i);
    }
    forall x | x in m ensures exists i :: 0 <= i < |parts| && x in parts[i] {
      var i :| InPart(parts, i, x);
    }
  }

  // ---------------------------------------------------------------- the network

  /** `Network`: the links, updated in place as they are read. */
  class Network
  {
    var links: Links

    /** `Network::new`: no computers. */
    constructor ()
      ensures links == map[]
    {
      links := map[];
    }

    /** `add_link_impl`. */
    method AddLinkImpl(l: Comp, r: Comp)
      modifies this
      ensures links == AddTo(old(links), l, r)
    {
      if l in links {
        links := links[l := links[l] + {r}];
      } else {
        assert {} + {r} == {r};
        links := links[l := {r}];
      }
    }

    /** `add_link`: both directions, one after the other. */
    method AddLink(l: Comp, r: Comp)
      modifies this
      ensures links == AddBoth(old(links), l, r)
    {
      AddLinkImpl(l, r);
      AddLinkImpl(r, l);
    }

    /** `has_link`. */
    predicate HasLink(l: Comp, r: Comp)
      reads this
    {
      Has(links, l, r)
    }

    /** `get_links`: empty for an unknown computer, and holding exactly the computers `c` links to. */
    function GetLinks(c: Comp): (r: set<Comp>)
      reads this
      ensures c !in links ==> r == {} && forall x :: !HasLink(c, x)
      ensures forall x :: x in r <==> HasLink(c, x)
    {
      LinksOf(links, c)
    }

    /** `subnet_comps`: the computers reached from `c` along the links. */
    method SubnetComps(c: Comp) returns (r: set<Comp>)
      ensures forall x :: x in r <==> Reaches(links, c, x)
    {
      r := Explore(links, c);
    }

    /**
     * `extract_subnet`: the computers reached from `c` move, with their links, out of this
     * network into a fresh one.
     */
    method ExtractSubnet(c: Comp) returns (sub: Network)
      modifies this
      ensures fresh(sub)
      ensures sub.links == Within(old(links), Reached(old(links), c))
      ensures links == Without(old(links), Reached(old(links), c))
    {
      var r := SubnetComps(c);
      ReachedIsLeast(links, c, r);
      var rest, part := Move(links, r);
      sub := new Network();
      sub.links := part;
      links := rest;
    }

    /** One round of `into_subnets`: the subnet of `c` is taken out, and extends the partition. */
    method TakePart(ghost m: Links, ghost parts: seq<Links>, ghost taken: set<Comp>, c: Comp) returns (sub: Network)
      requires Partition(m, parts, taken) && links == Without(m, taken) && Symmetric(links) && Full(links) && c in links
      modifies this
      ensures fresh(sub)
      ensures Partition(m, parts + [sub.links], taken + sub.links.Keys)
      ensures links == Without(m, taken + sub.links.Keys) && Symmetric(links) && Full(links)
      ensures |links.Keys| < |old(links).Keys| && sub.links.Keys <= old(links).Keys
    {
      NextPart(m, parts, taken, links, c);
      sub := ExtractSubnet(c);
    }

    /**
     * `into_subnets`: while a computer is left, its subnet is extracted. The networks
     * returned hold, in the ghost `parts`, a partition of all the computers (see
     * `PartitionFacts`: each non-empty, with the links it had, none sharing a computer,
     * together holding every computer, and each holding every computer its members link
     * to); nothing is left behind. The loop only ends when every
     * link goes both ways and every computer present has a link, as on a network read by
     * `parse_network`.
     */
    method IntoSubnets() returns (v: seq<Network>, ghost parts: seq<Links>)
      requires Symmetric(links) && Full(links)
      modifies this
      ensures links == map[]
      ensures |v| == |parts| && forall i :: 0 <= i < |v| ==> fresh(v[i]) && v[i].links == parts[i]
      ensures Partition(old(links), parts, old(links).Keys)
    {
      ghost var m := links;
      ghost var taken: set<Comp> := {};
      parts := [];
      v := [];
      assert Without(m, {}) == m;
      while links != map[]
        invariant links == Without(m, taken) && Symmetric(links) && Full(links)
        invariant taken <= m.Keys && Partition(m, parts, taken)
        invariant |v| == |parts| && forall i :: 0 <= i < |v| ==> fresh(v[i])
        invariant forall i :: 0 <= i < |v| ==> v[i].links == parts[i]
        decreases |links.Keys|
      {
        var c :| c in links;
        assert forall i :: 0 <= i < |v| ==> v[i] != this;
        var sub := TakePart(m, parts, taken, c);
        assert forall i :: 0 <= i < |v| ==> v[i].links == parts[i];
        parts := parts + [sub.links];
        taken := taken + sub.links.Keys;
        v := v + [sub];
      }
      AllTaken(m, taken);
    }
  }

  // ---------------------------------------------------------------- reading a network

  /** The link of one line, or the error that names the line. */
  function LinkOf(line: string): (r: Result<(Comp, Comp)>)
  {
    match ParseLink(line)
    case None => Err("invalid line: " + line)
    case Some(p) => Ok(p)
  }

  /** Line `i` is the first line that is not a link. */
  predicate FirstBadLine(ls: seq<string>, i: int)
  {
    0 <= i < |ls| && ParseLink(ls[i]).None? && forall j :: 0 <= j < i ==> ParseLink(ls[j]).Some?
  }

  /** The links of every line, or the error of the first line that is not a link. */
  function ParseLinks(ls: seq<string>): (r: Result<seq<(Comp, Comp)>>)
    ensures r.Ok? <==> forall i :: 0 <= i < |ls| ==> ParseLink(ls[i]).Some?
    ensures r.Ok? ==> (|r.value| == |ls| && forall i :: 0 <= i < |ls| ==> Some(r.value[i]) == ParseLink(ls[i]))
    ensures r.Err? ==> exists i :: FirstBadLine(ls, i) && r.error == "invalid line: " + ls[i]
  {
    assert forall i :: 0 <= i < |ls| ==> (LinkOf(ls[i]).Ok? <==> ParseLink(ls[i]).Some?);
    CollectAll(ls, LinkOf)
  }

  /**
   * `parse_network`: a fresh network with every link of the input added in both
   * directions, or the error of the first line that is not a link.
   */
  method ParseNetwork(input: string) returns (r: Result<Network>)
    ensures r.Err? <==> ParseLinks(Lines(input)).Err?
    ensures r.Err? ==> r.error == ParseLinks(Lines(input)).error
    ensures r.Ok? ==> fresh(r.value) && r.value.links == Build(ParseLinks(Lines(input)).value)
  {
    var ls := Lines(input);
    var n := new Network();
    ghost var ps: seq<(Comp, Comp)> := [];
    for i := 0 to |ls|
      invariant CollectAll(ls[..i], LinkOf) == Ok(ps)
      invariant n.links == Build(ps)
    {
      CollectAllSnoc(ls, LinkOf, i);
      var link := LinkOf(ls[i]);
      if link.Err? {
        CollectAllFirstErr(ls, LinkOf, i);
        return Err(link.error);
      }
      n.AddLink(link.value.0, link.value.1);
      assert Build(ps + [link.value]) == AddBoth(Build(ps), link.value.0, link.value.1) by {
        assert (ps + [link.value])[..|ps|] == ps;
      }
      ps := ps + [link.value];
    }
    assert ls[..|ls|] == ls;
    return Ok(n);
  }

  /** A network read without error is symmetric and full, and links exactly the pairs of its lines. */
  lemma ParsedNetwork(ls: seq<string>, a: Comp, b: Comp)
    requires ParseLinks(ls).Ok?
    ensures Symmetric(Build(ParseLinks(ls).value)) && Full(Build(ParseLinks(ls).value))
    ensures Has(Build(ParseLinks(ls).value), a, b) <==> exists i :: 0 <= i < |ls| && WritesLink(ls[i], a, b)
  {
    var ps := ParseLinks(ls).value;
    BuildShape(ps);
    BuildLinks(ps, a, b);
    forall i | 0 <= i < |ls|
      ensures (ps[i] == (a, b) || ps[i] == (b, a)) <==> WritesLink(ls[i], a, b)
    {
      LineOfLink(ls, i, a, b);
    }
  }

  /** The line is the link between `a` and `b`, written either way round. */
  predicate WritesLink(line: string, a: Comp, b: Comp)
  {
    line == Name(a) + "-" + Name(b) || line == Name(b) + "-" + Name(a)
  }

  lemma LineOfLink(ls: seq<string>, i: nat, a: Comp, b: Comp)
    requires ParseLinks(ls).Ok? && i < |ls|
    ensures var p := ParseLinks(ls).value[i]; (p == (a, b) || p == (b, a)) <==> WritesLink(ls[i], a, b)
  {
    var p := ParseLinks(ls).value[i];
    assert ls[i] == Name(p.0) + "-" + Name(p.1);
    NamesDecide(p.0, p.1, a, b);
    NamesDecide(p.0, p.1, b, a);
  }

  /** Two written links are the same text exactly when they join the same computers in the same order. */
  lemma NamesDecide(a: Comp, b: Comp, c: Comp, d: Comp)
    ensures Name(a) + "-" + Name(b) == Name(c) + "-" + Name(d) <==> (a, b) == (c, d)
  {
    var s := Name(a) + "-" + Name(b);
    var t := Name(c) + "-" + Name(d);
    assert s == [a.hi, a.lo, '-', b.hi, b.lo];
    assert t == [c.hi, c.lo, '-', d.hi, d.lo];
    if s == t {
      assert s[0] == t[0] && s[1] == t[1] && s[3] == t[3] && s[4] == t[4];
    }
  }

  // ---------------------------------------------------------------- triangles

  /** Three computers, as `[Comp; 3]`. */
  type Triple = (Comp, Comp, Comp)

  /** `t` holds `a`, `b` and `c` in some order. */
  predicate Permutes(t: Triple, a: Comp, b: Comp, c: Comp)
  {
    t == (a, b, c) || t == (a, c, b) || t == (b, a, c) || t == (b, c, a) || t == (c, a, b) || t == (c, b, a)
  }

  /** `triplet.sort()`: the three computers in ascending order. */
  function Sort3(a: Comp, b: Comp, c: Comp): (t: Triple)
    ensures Permutes(t, a, b, c)
    ensures AtMost(t.0, t.1) && AtMost(t.1, t.2)
  {
    if AtMost(a, b) then
      if AtMost(b, c) then (a, b, c) else if AtMost(a, c) then (a, c, b) else (c, a, b)
    else
      if AtMost(a, c) then (b, a, c) else if AtMost(b, c) then (b, c, a) else (c, b, a)
  }

  /** `x` and `y` are linked in at least one direction. */
  predicate Linked(m: Links, x: Comp, y: Comp)
  {
    Has(m, x, y) || Has(m, y, x)
  }

  /** No computer links to itself. */
  ghost predicate Loopless(m: Links)
  {
    forall c :: !Has(m, c, c)
  }

  /** Three computers in strictly ascending order, each linked to the other two. */
  predicate Triangle(m: Links, t: Triple)
  {
    Below(t.0, t.1) && Below(t.1, t.2) && Has(m, t.0, t.1) && Has(m, t.0, t.2) && Has(m, t.1, t.2)
  }

  /**
   * `network_triplets`: for every computer `c0` the filter accepts, and every two computers
   * `c1` before `c2` in its link set that are linked to each other, the three sorted.
   */
  function Triplets(m: Links, filter: Comp -> bool): set<Triple>
  {
    set c0, c1, c2 | c0 in m && filter(c0) && c1 in m[c0] && c2 in m[c0] && Below(c1, c2) && Has(m, c1, c2) :: Sort3(c0, c1, c2)
  }

  /** Every triple found is sorted, its three computers are linked pairwise, and the filter accepts one of them. */
  lemma TripletSound(m: Links, filter: Comp -> bool, t: Triple)
    requires t in Triplets(m, filter)
    ensures AtMost(t.0, t.1) && AtMost(t.1, t.2)
    ensures Linked(m, t.0, t.1) && Linked(m, t.0, t.2) && Linked(m, t.1, t.2)
    ensures filter(t.0) || filter(t.1) || filter(t.2)
  {
    var c0, c1, c2 :| c0 in m && filter(c0) && c1 in m[c0] && c2 in m[c0] && Below(c1, c2) && Has(m, c1, c2)
      && t == Sort3(c0, c1, c2);
    assert Has(m, c0, c1) && Has(m, c0, c2);
  }

  /** In a symmetric network, every triangle with a computer the filter accepts is found. */
  lemma TripletComplete(m: Links, filter: Comp -> bool, t: Triple)
    requires Symmetric(m) && Triangle(m, t) && (filter(t.0) || filter(t.1) || filter(t.2))
    ensures t in Triplets(m, filter)
  {
    var (a, b, c) := t;
    assert Has(m, b, a) && Has(m, c, a) && Has(m, c, b);
    if filter(a) {
      assert Sort3(a, b, c) == t;
    } else if filter(b) {
      assert Sort3(b, a, c) == t;
    } else {
      assert Sort3(c, a, b) == t;
    }
  }

  /** In a symmetric network without self-links, the triples found are exactly the triangles with a computer the filter accepts. */
  lemma TripletsExactly(m: Links, filter: Comp -> bool, t: Triple)
    requires Symmetric(m) && Loopless(m)
    ensures t in Triplets(m, filter) <==> Triangle(m, t) && (filter(t.0) || filter(t.1) || filter(t.2))
  {
    if t in Triplets(m, filter) {
      TripletSound(m, filter, t);
      assert !Has(m, t.0, t.0) && !Has(m, t.1, t.1);
    }
    if Triangle(m, t) && (filter(t.0) || filter(t.1) || filter(t.2)) {
      TripletComplete(m, filter, t);
    }
  }

  /** The filter of part one: the name starts with `t`. */
  predicate StartsWithT(c: Comp)
  {
    Char0(c) == 't'
  }

  /** `star1`: the number of triples found with the filter of part one. */
  function Star1(m: Links): nat
  {
    |Triplets(m, StartsWithT)|
  }

  /** The triangles of the network that hold a computer whose name starts with `t`. */
  ghost function TTriangles(m: Links): set<Triple>
  {
    set a, b, c | a in m && b in m[a] && c in m[a] && Triangle(m, (a, b, c))
      && (StartsWithT(a) || StartsWithT(b) || StartsWithT(c)) :: (a, b, c)
  }

  /** In a symmetric network without self-links, part one counts the triangles with a `t` computer. */
  lemma Star1CountsTriangles(m: Links)
    requires Symmetric(m) && Loopless(m)
    ensures Star1(m) == |TTriangles(m)|
  {
    forall t ensures t in Triplets(m, StartsWithT) <==> t in TTriangles(m) {
      TripletsExactly(m, StartsWithT, t);
    }
    assert Triplets(m, StartsWithT) == TTriangles(m);
  }

  // ---------------------------------------------------------------- cliques

  /** Every two different computers of `s` are linked. */
  predicate Clique(m: Links, s: set<Comp>)
  {
    forall x, y :: x in s && y in s && x != y ==> Linked(m, x, y)
  }

  /** `x` is the least computer of `s`. */
  predicate Least(x: Comp, s: set<Comp>)
  {
    x in s && forall y :: y in s ==> AtMost(x, y)
  }

  lemma BelowTrans(a: Comp, b: Comp, c: Comp)
    requires Below(a, b) && AtMost(b, c)
    ensures Below(a, c)
  {
  }

  /** Some computer of a non-empty set comes first in the order. */
  lemma {:induction false} HasLeast(s: set<Comp>)
    requires s != {}
    ensures exists x :: Least(x, s)
    decreases |s|
  {
    var z :| z in s;
    if s == {z} {
      assert Least(z, s);
    } else {
      HasLeast(s - {z});
      var x :| Least(x, s - {z});
      if Below(z, x) {
        forall y | y in s ensures AtMost(z, y) {
          if y != z {
            assert y in s - {z};
            BelowTrans(z, x, y);
          }
        }
        assert Least(z, s);
      } else {
        BelowTotal(z, x);
        forall y | y in s ensures AtMost(x, y) {
          if y != z {
            assert y in s - {z};
          }
        }
        assert Least(x, s);
      }
    }
  }

  /** `set.iter().next()` on a `BTreeSet<Comp>`: its least computer. */
  function First(s: set<Comp>): (x: Comp)
    requires s != {}
    ensures x in s && forall y :: y in s ==> AtMost(x, y)
  {
    HasLeast(s);
    var x :| Least(x, s); x
  }

  /** `into_iter` on a `BTreeSet<Comp>`: its computers in ascending order. */
  function Ascending(s: set<Comp>): (r: seq<Comp>)
    ensures |r| == |s| && forall x :: x in r <==> x in s
    ensures forall i, j :: 0 <= i < j < |r| ==> Below(r[i], r[j])
    decreases |s|
  {
    if s == {} then [] else
      var x := First(s);
      var rest := Ascending(s - {x});
      assert forall y :: y in rest ==> Below(x, y);
      [x] + rest
  }

  /**
   * `try_expand`: the computers linked to the first computer of `s` that are not in
   * `s` and that every other computer of `s` links to.
   */
  function TryExpand(m: Links, s: set<Comp>): (r: set<Comp>)
    requires s != {}
    ensures forall l :: l in r <==> l !in s && forall x :: x in s ==> Has(m, x, l)
  {
    var first := First(s);
    set l | l in LinksOf(m, first) && l !in s && forall x :: x in s && x != first ==> Has(m, x, l)
  }

  /** A clique grown by a computer `try_expand` yields is a clique one larger. */
  lemma ExpandClique(m: Links, s: set<Comp>, l: Comp)
    requires s != {} && Clique(m, s) && l in TryExpand(m, s)
    ensures Clique(m, s + {l}) && |s + {l}| == |s| + 1
  {
    forall x, y | x in s + {l} && y in s + {l} && x != y ensures Linked(m, x, y) {
      if x == l {
        assert Has(m, y, l);
      } else if y == l {
        assert Has(m, x, l);
      }
    }
  }

  /** All computers of a network: those with links and those linked to. */
  ghost function Nodes(m: Links): set<Comp>
  {
    m.Keys + set k, x | k in m && x in m[k] :: x
  }

  /** Every set of computers of the network. */
  ghost function Subsets(m: Links): set<set<Comp>>
  {
    set s | s <= Nodes(m)
  }

  /** The sets of `network_triplets(network, |_| true)`, as `BTreeSet::from` makes them. */
  function SeedSets(m: Links): set<set<Comp>>
  {
    SetsOf(Triplets(m, AnyComp))
  }

  /** `BTreeSet::from` on each triple. */
  function SetsOf(ts: set<Triple>): set<set<Comp>>
  {
    set t | t in ts :: {t.0, t.1, t.2}
  }

  /** The filter of part two accepts every computer. */
  predicate AnyComp(c: Comp)
  {
    true
  }

  /** A set `star2` works on: a clique of the network with at least two computers, three when no computer links to itself. */
  ghost predicate Good(m: Links, s: set<Comp>)
  {
    |s| >= 2 && (Loopless(m) ==> |s| >= 3) && Clique(m, s) && s <= Nodes(m)
  }

  /** Every set that comes from a triple is one `star2` can work on. */
  lemma SeedGood(m: Links, t: Triple)
    requires t in Triplets(m, AnyComp)
    ensures Good(m, {t.0, t.1, t.2})
  {
    var c0, c1, c2 :| c0 in m && AnyComp(c0) && c1 in m[c0] && c2 in m[c0] && Below(c1, c2) && Has(m, c1, c2)
      && t == Sort3(c0, c1, c2);
    var s := {t.0, t.1, t.2};
    assert s == {c0, c1, c2};
    assert c1 != c2 && |{c1, c2}| == 2;
    if Loopless(m) {
      assert !Has(m, c0, c0);
      assert c0 != c1 && c0 != c2;
      assert |s| == 3;
    }
    assert Has(m, c0, c1) && Has(m, c0, c2);
  }

  /** In a symmetric network, every clique of three is a set that comes from a triple. */
  lemma SeedOfTriangle(m: Links, s: set<Comp>)
    requires Symmetric(m) && Clique(m, s) && |s| == 3
    ensures s in SeedSets(m)
  {
    var a :| a in s;
    assert |s - {a}| == 2;
    var b :| b in s - {a};
    assert |s - {a, b}| == 1;
    var c :| c in s - {a, b};
    assert |s - {a, b, c}| == 0;
    assert s == {a, b, c} by {
      assert s - {a, b, c} == {};
    }
    var t := Sort3(a, b, c);
    assert {t.0, t.1, t.2} == s;
    assert Linked(m, t.0, t.1) && Linked(m, t.0, t.2) && Linked(m, t.1, t.2);
    TripletComplete(m, AnyComp, t);
  }

  /** Every computer `try_expand` yields for `s` has grown `s` into a set already seen. */
  ghost predicate Expanded(m: Links, s: set<Comp>, vis: set<set<Comp>>)
  {
    s != {} && forall l :: l in TryExpand(m, s) ==> s + {l} in vis
  }

  /**
   * In a symmetric network where every triple-set and every seen set has been expanded
   * into seen sets, every clique of at least four has been seen.
   */
  lemma {:induction false} CliqueSeen(m: Links, vis: set<set<Comp>>, k: set<Comp>)
    requires Symmetric(m) && Clique(m, k) && |k| >= 4
    requires forall s :: s in SeedSets(m) || s in vis ==> Expanded(m, s, vis)
    ensures k in vis
    decreases |k|
  {
    var x :| x in k;
    var k' := k - {x};
    if |k'| == 3 {
      SeedOfTriangle(m, k');
    } else {
      CliqueSeen(m, vis, k');
    }
    assert x in TryExpand(m, k') by {
      forall y | y in k' ensures Has(m, y, x) {
        assert Linked(m, y, x);
      }
    }
    assert k' + {x} == k;
  }

  /** A computer with a link, and the computer it links to, are computers of the network. */
  lemma NodesOfLink(m: Links, k: Comp, x: Comp)
    requires Has(m, k, x)
    ensures k in Nodes(m) && x in Nodes(m)
  {
  }

  /** A set `star2` has seen: a clique one larger than a set it worked on. */
  ghost predicate Grown(m: Links, s: set<Comp>)
  {
    Good(m, s) && |s| >= 3 && (Loopless(m) ==> |s| >= 4)
  }

  /** A set that grows a good set by a computer `try_expand` yields is grown. */
  lemma GrowGood(m: Links, s: set<Comp>, l: Comp)
    requires Good(m, s) && l in TryExpand(m, s)
    ensures Grown(m, s + {l})
  {
    ExpandClique(m, s, l);
    NodesOfLink(m, First(s), l);
  }

  /** Taking in new sets of a universe leaves fewer of it to take. */
  lemma Fewer<T>(u: set<T>, a: set<T>, b: set<T>)
    requires a < b <= u
    ensures |u - b| < |u - a|
  {
    assert b - a != {};
    var x :| x in b - a;
    assert u - a == (u - b) + (b - a);
    assert x in b - a;
  }

  /** One more triple adds its set. */
  lemma SetsOfAdd(ts: set<Triple>, t: Triple)
    ensures SetsOf(ts + {t}) == SetsOf(ts) + {{t.0, t.1, t.2}}
  {
  }

  /** `map(BTreeSet::from).collect::<Vec<CompSet>>()` over a set of triples: each triple's set, in some order. */
  method Seeds(ts: set<Triple>) returns (work: seq<set<Comp>>)
    ensures forall s :: s in work <==> s in SetsOf(ts)
  {
    var todo := ts;
    ghost var taken: set<Triple> := {};
    work := [];
    while todo != {}
      invariant todo + taken == ts
      invariant forall s :: s in work <==> s in SetsOf(taken)
      decreases |todo|
    {
      var t :| t in todo;
      todo := todo - {t};
      SetsOfAdd(taken, t);
      taken := taken + {t};
      work := work + [{t.0, t.1, t.2}];
    }
  }

  /**
   * The `for` loop of `star2`: each computer `try_expand` yields grows `s` by one, and a
   * grown set not seen before is marked seen and pushed onto the work list.
   */
  method Expand(m: Links, s: set<Comp>, vis: set<set<Comp>>, work: seq<set<Comp>>)
    returns (vis': set<set<Comp>>, work': seq<set<Comp>>)
    requires Good(m, s)
    ensures vis <= vis' && Expanded(m, s, vis')
    ensures forall k :: k in vis' && k !in vis ==> k in work' && Grown(m, k)
    ensures forall k :: k in work' ==> k in work || (k in vis' && k !in vis)
    ensures forall k :: k in work ==> k in work'
    ensures vis' == vis ==> work' == work
  {
    var todo := TryExpand(m, s);
    vis', work' := vis, work;
    while todo != {}
      invariant todo <= TryExpand(m, s)
      invariant vis <= vis'
      invariant forall l :: l in TryExpand(m, s) && l !in todo ==> s + {l} in vis'
      invariant forall k :: k in vis' && k !in vis ==> k in work' && Grown(m, k)
      invariant forall k :: k in work' ==> k in work || (k in vis' && k !in vis)
      invariant forall k :: k in work ==> k in work'
      invariant vis' == vis ==> work' == work
      decreases |todo|
    {
      var comp :| comp in todo;
      todo := todo - {comp};
      var exp := s + {comp};
      if exp !in vis' {
        GrowGood(m, s, comp);
        vis' := vis' + {exp};
        work' := work' + [exp];
      }
    }
  }

  /** The fold of `star2` over the seen sets: the first largest one, or the empty set when none was seen. */
  method Longest(vis: set<set<Comp>>) returns (best: set<Comp>)
    ensures best in vis || best == {}
    ensures forall s :: s in vis ==> |s| <= |best|
  {
    var maxlen := 0;
    best := {};
    var rest := vis;
    while rest != {}
      invariant rest <= vis
      invariant maxlen == |best| && (best in vis || best == {})
      invariant forall s :: s in vis && s !in rest ==> |s| <= |best|
      decreases |rest|
    {
      var s :| s in rest;
      rest := rest - {s};
      if |s| > maxlen {
        maxlen, best := |s|, s;
      }
    }
  }

  /** The names of the computers, in order. */
  function Names(cs: seq<Comp>): (r: seq<string>)
    ensures |r| == |cs| && forall i :: 0 <= i < |cs| ==> r[i] == Name(cs[i])
  {
    if cs == [] then [] else Names(cs[..|cs| - 1]) + [Name(cs[|cs| - 1])]
  }

  /** The last fold of `star2`: every name in order, with a comma before each name but the first. */
  function Password(cs: seq<Comp>): string
  {
    if cs == [] then "" else
      var acc := Password(cs[..|cs| - 1]);
      (if acc == [] then acc else acc + ",") + Name(cs[|cs| - 1])
  }

  /** The answer is the names joined by commas. */
  lemma {:induction false} PasswordIsJoin(cs: seq<Comp>)
    ensures Password(cs) == Join(Names(cs), ",")
    ensures cs != [] ==> |Password(cs)| == 3 * |cs| - 1
  {
    if cs != [] {
      var init := cs[..|cs| - 1];
      PasswordIsJoin(init);
      if init != [] {
        assert Names(cs) == Names(init) + [Name(cs[|cs| - 1])];
        JoinSnoc(Names(init), Name(cs[|cs| - 1]), ",");
      }
    }
  }

  /** Sets expanded into seen sets stay so as more sets are seen. */
  lemma ExpandedMore(m: Links, done: set<set<Comp>>, vis: set<set<Comp>>, vis': set<set<Comp>>)
    requires vis <= vis' && forall s :: s in done ==> Expanded(m, s, vis)
    ensures forall s :: s in done ==> Expanded(m, s, vis')
  {
  }

  /**
   * The `while` loop of `star2`: the sets seen are grown cliques, and when the work list
   * runs out every triple-set and every seen set has been expanded into seen sets.
   */
  method Search(m: Links, seeds: seq<set<Comp>>) returns (vis: set<set<Comp>>)
    requires forall s :: s in seeds <==> s in SeedSets(m)
    ensures forall s :: s in vis ==> Grown(m, s)
    ensures forall s :: s in SeedSets(m) || s in vis ==> Expanded(m, s, vis)
  {
    var work := seeds;
    vis := {};
    ghost var done: set<set<Comp>> := {};
    forall t | t in Triplets(m, AnyComp) ensures Good(m, {t.0, t.1, t.2}) {
      SeedGood(m, t);
    }
    while work != []
      invariant forall s :: s in work ==> Good(m, s)
      invariant forall s :: s in vis ==> Grown(m, s)
      invariant forall s :: s in seeds || s in vis ==> s in work || s in done
      invariant forall s :: s in done ==> Expanded(m, s, vis)
      decreases |Subsets(m) - vis|, |work|
    {
      ghost var vis0 := vis;
      var group := work[|work| - 1];
      PopMembers(work);
      work := work[..|work| - 1];
      vis, work := Expand(m, group, vis, work);
      ExpandedMore(m, done, vis0, vis);
      done := done + {group};
      if vis != vis0 {
        assert vis <= Subsets(m);
        Fewer(Subsets(m), vis0, vis);
      }
    }
  }

  /**
   * `star2`: every triangle is grown one computer at a time, each new set pushed onto the
   * work list, until no set grows further; the answer names the largest set seen. The
   * sets seen are cliques one larger than a set worked on, the triangles themselves are
   * not among them, and in a symmetric network every clique of four or more is seen. So the
   * answer names a largest clique when there is a clique of four, and is empty when a
   * symmetric network without self-links has none.
   */
  method Star2(m: Links) returns (answer: string, ghost best: set<Comp>)
    ensures answer == Password(Ascending(best))
    ensures best == {} || (Clique(m, best) && |best| >= 3)
    ensures Loopless(m) ==> best == {} || |best| >= 4
    ensures Symmetric(m) ==> forall k :: Clique(m, k) && |k| >= 4 ==> |k| <= |best|
  {
    var work := Seeds(Triplets(m, AnyComp));
    var vis := Search(m, work);
    var longest := Longest(vis);
    best := longest;
    if Symmetric(m) {
      forall k | Clique(m, k) && |k| >= 4 ensures |k| <= |best| {
        CliqueSeen(m, vis, k);
      }
    }
    answer := Password(Ascending(longest));
  }
}

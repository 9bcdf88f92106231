/**
 * A sparse map over the whole integer plane, stored in 16 by 16 blocks that are
 * allocated on first write, with a bounding box of every point written.
 */
module QuadMaps {
  /** `SIZE`: the side of one block. */
  const SIZE: int := 16

  /** A point of the plane. */
  type Pos = (int, int)

  /**
   * `mpos`: the block of `p` (Euclidean division by `SIZE`) and the offset inside it,
   * `x + SIZE * y` of the Euclidean remainders; block and offset rebuild `p`.
   */
  function MPos(p: Pos): (r: (Pos, nat))
    ensures r.1 < SIZE * SIZE
  {
    ((p.0 / SIZE, p.1 / SIZE), p.0 % SIZE + SIZE * (p.1 % SIZE))
  }

  /** Block and offset rebuild the point. */
  lemma MPosRebuild(p: Pos)
    ensures var (k, o) := MPos(p); k.0 * SIZE + o % SIZE == p.0 && k.1 * SIZE + o / SIZE == p.1
  {
  }

  /** Different points have different block or offset. */
  lemma MPosInjective(p: Pos, q: Pos)
    requires MPos(p) == MPos(q)
    ensures p == q
  {
    MPosRebuild(p);
    MPosRebuild(q);
  }

  /** `lohi`: the two values in increasing order. */
  function LoHi(a: int, b: int): (r: (int, int))
    ensures r.0 <= r.1
    ensures (r.0 == a && r.1 == b) || (r.0 == b && r.1 == a)
  {
    if a <= b then (a, b) else (b, a)
  }

  /** `Bounds`: the half-open box from `min` to `max`. */
  class Bounds
  {
    var min: Pos
    var max: Pos

    /** `Bounds::new`: the empty box at the origin. */
    constructor ()
      ensures min == (0, 0) && max == (0, 0) && IsEmpty()
    {
      min := (0, 0);
      max := (0, 0);
    }

    /** `is_empty`: the box is empty when it is flat in either direction. */
    predicate IsEmpty()
      reads this
    {
      min.0 == max.0 || min.1 == max.1
    }

    /** `p` lies in the box. */
    predicate Contains(p: Pos)
      reads this
    {
      min.0 <= p.0 < max.0 && min.1 <= p.1 < max.1
    }

    /**
     * The box holds the half-open box from `lo` to `hi`: that box is flat, or it lies
     * inside this one.
     */
    predicate Encloses(lo: Pos, hi: Pos)
      reads this
    {
      lo.0 >= hi.0 || lo.1 >= hi.1 || (min.0 <= lo.0 && hi.0 <= max.0 && min.1 <= lo.1 && hi.1 <= max.1)
    }

    /** `Encloses` means that every point of the box from `lo` to `hi` lies in this box. */
    lemma EnclosesPoints(lo: Pos, hi: Pos)
      ensures Encloses(lo, hi) <==> forall x: int, y: int :: lo.0 <= x < hi.0 && lo.1 <= y < hi.1 ==> Contains((x, y))
    {
      if !Encloses(lo, hi) {
        assert !Contains(lo) || !Contains((hi.0 - 1, hi.1 - 1));
      }
    }

    /** A flat box holds no point. */
    lemma EmptyHoldsNothing(p: Pos)
      requires IsEmpty()
      ensures !Contains(p)
    {
    }

    /**
     * `extend_one`: an empty box becomes the single cell `p`; otherwise the box grows
     * just enough to hold `p`. Either way the box is no longer empty, holds `p`, and still
     * holds every point it held.
     */
    method ExtendOne(p: Pos)
      modifies this
      ensures old(IsEmpty()) ==> min == p && max == (p.0 + 1, p.1 + 1)
      ensures !old(IsEmpty()) ==>
        (min == (Min(old(min).0, p.0), Min(old(min).1, p.1)) && max == (Max(old(max).0, p.0 + 1), Max(old(max).1, p.1 + 1)))
      ensures Contains(p) && !IsEmpty()
      ensures forall x: int, y: int :: old(Contains((x, y))) ==> Contains((x, y))
      ensures Encloses(old(min), old(max))
    {
      if IsEmpty() {
        min := p;
        max := (p.0 + 1, p.1 + 1);
      } else {
        min := (Min(min.0, p.0), Min(min.1, p.1));
        max := (Max(max.0, p.0 + 1), Max(max.1, p.1 + 1));
      }
    }
  }

  function Min(a: int, b: int): int { if a <= b then a else b }
  function Max(a: int, b: int): int { if a <= b then b else a }

  /** Every block has its `SIZE * SIZE` cells. */
  predicate Whole<T>(bm: map<Pos, seq<T>>)
  {
    forall k :: k in bm ==> |bm[k]| == SIZE * SIZE
  }

  /** `bm` reads `item` on row `y` from `lo` to `hi` inclusive, and what `bm0` reads everywhere else. */
  ghost predicate RowPainted<T>(bm: map<Pos, seq<T>>, bm0: map<Pos, seq<T>>, zero: T, y: int, lo: int, hi: int, item: T)
    requires Whole(bm) && Whole(bm0)
  {
    forall q :: Cell(bm, zero, q) == if q.1 == y && lo <= q.0 <= hi then item else Cell(bm0, zero, q)
  }

  /** `bm` reads `item` on column `x` from `lo` to `hi` inclusive, and what `bm0` reads everywhere else. */
  ghost predicate ColumnPainted<T>(bm: map<Pos, seq<T>>, bm0: map<Pos, seq<T>>, zero: T, x: int, lo: int, hi: int, item: T)
    requires Whole(bm) && Whole(bm0)
  {
    forall q :: Cell(bm, zero, q) == if q.0 == x && lo <= q.1 <= hi then item else Cell(bm0, zero, q)
  }

  /** The cell of `p` in the blocks `bm`: `zero` when its block is missing. */
  function Cell<T>(bm: map<Pos, seq<T>>, zero: T, p: Pos): T
    requires Whole(bm)
  {
    var (k, o) := MPos(p);
    if k in bm then bm[k][o] else zero
  }

  /** The blocks after `*at_mut(p) = v`: the block of `p`, allocated full of `zero` if missing, with `v` at `p`. */
  function Write<T>(bm: map<Pos, seq<T>>, zero: T, p: Pos, v: T): (r: map<Pos, seq<T>>)
    requires Whole(bm)
    ensures Whole(r)
  {
    var (k, o) := MPos(p);
    var block := if k in bm then bm[k] else seq(SIZE * SIZE, _ => zero);
    bm[k := block[o := v]]
  }

  /** After a write, `p` reads `v` and every other point reads what it read before. */
  lemma CellOfWrite<T>(bm: map<Pos, seq<T>>, zero: T, p: Pos, v: T, q: Pos)
    requires Whole(bm)
    ensures Cell(Write(bm, zero, p, v), zero, q) == if q == p then v else Cell(bm, zero, q)
  {
    if q != p && MPos(q).0 == MPos(p).0 {
      if MPos(q).1 == MPos(p).1 {
        MPosInjective(p, q);
      }
    }
  }

  /** `CellOfWrite` at every point. */
  lemma CellsOfWrite<T>(bm: map<Pos, seq<T>>, zero: T, p: Pos, v: T)
    requires Whole(bm)
    ensures forall q :: Cell(Write(bm, zero, p, v), zero, q) == if q == p then v else Cell(bm, zero, q)
  {
    forall q ensures Cell(Write(bm, zero, p, v), zero, q) == if q == p then v else Cell(bm, zero, q) {
      CellOfWrite(bm, zero, p, v, q);
    }
  }

  /** Writing `(x, y)` after the points `lo..x` of row `y` extends the written run by one. */
  lemma RowStep<T>(m0: map<Pos, seq<T>>, bm: map<Pos, seq<T>>, after: map<Pos, seq<T>>, zero: T, y: int, lo: int, x: int, item: T)
    requires Whole(m0) && Whole(bm) && Whole(after) && lo <= x
    requires forall q :: Cell(bm, zero, q) == if q.1 == y && lo <= q.0 < x then item else Cell(m0, zero, q)
    requires forall q :: Cell(after, zero, q) == if q == (x, y) then item else Cell(bm, zero, q)
    ensures forall q ::
      Cell(after, zero, q) == if q.1 == y && lo <= q.0 < x + 1 then item else Cell(m0, zero, q)
  {
    forall q ensures Cell(after, zero, q) == if q.1 == y && lo <= q.0 < x + 1 then item else Cell(m0, zero, q) {
      if q != (x, y) {
        assert Cell(after, zero, q) == Cell(bm, zero, q);
        assert (q.1 == y && lo <= q.0 < x + 1) == (q.1 == y && lo <= q.0 < x);
      }
    }
  }

  /** Writing `(x, y)` after the points `lo..y` of column `x` extends the written run by one. */
  lemma ColumnStep<T>(m0: map<Pos, seq<T>>, bm: map<Pos, seq<T>>, after: map<Pos, seq<T>>, zero: T, x: int, lo: int, y: int, item: T)
    requires Whole(m0) && Whole(bm) && Whole(after) && lo <= y
    requires forall q :: Cell(bm, zero, q) == if q.0 == x && lo <= q.1 < y then item else Cell(m0, zero, q)
    requires forall q :: Cell(after, zero, q) == if q == (x, y) then item else Cell(bm, zero, q)
    ensures forall q ::
      Cell(after, zero, q) == if q.0 == x && lo <= q.1 < y + 1 then item else Cell(m0, zero, q)
  {
    forall q ensures Cell(after, zero, q) == if q.0 == x && lo <= q.1 < y + 1 then item else Cell(m0, zero, q) {
      if q != (x, y) {
        assert Cell(after, zero, q) == Cell(bm, zero, q);
        assert (q.0 == x && lo <= q.1 < y + 1) == (q.0 == x && lo <= q.1 < y);
      }
    }
  }

  /** `Map`: blocks of `SIZE * SIZE` cells by block position, `zero` wherever nothing was allocated. */
  class QuadMap<T(==)>
  {
    const zero: T
    var m: map<Pos, seq<T>>
    const bounds: Bounds

    /** The blocks are whole, and the bounds hold every point whose cell is not `zero`. */
    ghost predicate Valid()
      reads this, bounds
    {
      Whole(m) && forall p :: Cell(m, zero, p) != zero ==> bounds.Contains(p)
    }

    /** `Map::new`: no blocks, empty bounds; every point reads `zero`. */
    constructor (zero: T)
      ensures this.zero == zero && m == map[] && fresh(bounds) && bounds.IsEmpty()
      ensures Valid() && forall p :: Cell(m, zero, p) == zero
    {
      this.zero := zero;
      m := map[];
      bounds := new Bounds();
    }

    /** `at`: the cell of `p`, `zero` when its block was never allocated. */
    function At(p: Pos): (r: T)
      reads this
      requires Whole(m)
      ensures MPos(p).0 !in m ==> r == zero
    {
      Cell(m, zero, p)
    }

    /** `*at_mut(p) = v`: extends the bounds to `p` and writes `v` at `p`. */
    method Put(p: Pos, v: T)
      requires Valid()
      modifies this, bounds
      ensures Valid() && m == Write(old(m), zero, p, v)
      ensures bounds.Contains(p) && !bounds.IsEmpty()
      ensures forall x: int, y: int :: old(bounds.Contains((x, y))) ==> bounds.Contains((x, y))
      ensures bounds.Encloses(old(bounds.min), old(bounds.max))
    {
      ghost var before := m;
      bounds.ExtendOne(p);
      var (k, o) := MPos(p);
      var block := if k in m then m[k] else seq(SIZE * SIZE, _ => zero);
      m := m[k := block[o := v]];
      forall q | Cell(m, zero, q) != zero
        ensures bounds.Contains(q)
      {
        CellOfWrite(before, zero, p, v, q);
        if q != p {
          assert old(bounds.Contains((q.0, q.1)));
        }
      }
    }

    /**
     * `hline`: writes `item` at every point from `x0` to `x1` inclusive on row `y`, in either
     * order; the bounds still hold what they held, and now hold the row.
     */
    method HLine(x0: int, x1: int, y: int, item: T)
      requires Valid()
      modifies this, bounds
      ensures Valid()
      ensures RowPainted(m, old(m), zero, y, LoHi(x0, x1).0, LoHi(x0, x1).1, item)
      ensures bounds.Encloses(old(bounds.min), old(bounds.max))
      ensures bounds.Encloses((LoHi(x0, x1).0, y), (LoHi(x0, x1).1 + 1, y + 1))
    {
      var r := LoHi(x0, x1);
      FillRow(r.0, r.1, y, item);
    }

    /** The loop of `hline`: writes `item` at `(x, y)` for each `x` from `lo` up to `hi`. */
    method FillRow(lo: int, hi: int, y: int, item: T)
      requires Valid() && lo <= hi
      modifies this, bounds
      ensures Valid()
      ensures RowPainted(m, old(m), zero, y, lo, hi, item)
      ensures bounds.Encloses(old(bounds.min), old(bounds.max))
      ensures bounds.Encloses((lo, y), (hi + 1, y + 1))
    {
      ghost var m0 := m;
      for x := lo to hi + 1
        invariant Valid()
        invariant forall q :: Cell(m, zero, q) == if q.1 == y && lo <= q.0 < x then item else Cell(m0, zero, q)
        invariant x > lo ==> bounds.min.0 <= lo && x <= bounds.max.0 && bounds.min.1 <= y < bounds.max.1
        invariant bounds.Encloses(old(bounds.min), old(bounds.max))
      {
        PutRowStep(lo, x, y, item, m0);
      }
    }

    /** One step of `hline`: writes `item` at `(x, y)`, the next point of the row from `lo`. */
    method PutRowStep(lo: int, x: int, y: int, item: T, ghost m0: map<Pos, seq<T>>)
      requires Valid() && Whole(m0) && lo <= x
      requires forall q :: Cell(m, zero, q) == if q.1 == y && lo <= q.0 < x then item else Cell(m0, zero, q)
      requires x > lo ==> bounds.min.0 <= lo && x <= bounds.max.0 && bounds.min.1 <= y < bounds.max.1
      modifies this, bounds
      ensures Valid()
      ensures forall q :: Cell(m, zero, q) == if q.1 == y && lo <= q.0 < x + 1 then item else Cell(m0, zero, q)
      ensures bounds.min.0 <= lo && x < bounds.max.0 && bounds.min.1 <= y < bounds.max.1
      ensures bounds.Encloses(old(bounds.min), old(bounds.max))
    {
      ghost var before := m;
      Put((x, y), item);
      CellsOfWrite(before, zero, (x, y), item);
      RowStep(m0, before, m, zero, y, lo, x, item);
    }

    /**
     * `vline`: writes `item` at every point from `y0` to `y1` inclusive on column `x`, in
     * either order; the bounds still hold what they held, and now hold the column.
     */
    method VLine(x: int, y0: int, y1: int, item: T)
      requires Valid()
      modifies this, bounds
      ensures Valid()
      ensures ColumnPainted(m, old(m), zero, x, LoHi(y0, y1).0, LoHi(y0, y1).1, item)
      ensures bounds.Encloses(old(bounds.min), old(bounds.max))
      ensures bounds.Encloses((x, LoHi(y0, y1).0), (x + 1, LoHi(y0, y1).1 + 1))
    {
      var r := LoHi(y0, y1);
      FillColumn(x, r.0, r.1, item);
    }

    /** The loop of `vline`: writes `item` at `(x, y)` for each `y` from `lo` up to `hi`. */
    method FillColumn(x: int, lo: int, hi: int, item: T)
      requires Valid() && lo <= hi
      modifies this, bounds
      ensures Valid()
      ensures ColumnPainted(m, old(m), zero, x, lo, hi, item)
      ensures bounds.Encloses(old(bounds.min), old(bounds.max))
      ensures bounds.Encloses((x, lo), (x + 1, hi + 1))
    {
      ghost var m0 := m;
      for y := lo to hi + 1
        invariant Valid()
        invariant forall q :: Cell(m, zero, q) == if q.0 == x && lo <= q.1 < y then item else Cell(m0, zero, q)
        invariant y > lo ==> bounds.min.1 <= lo && y <= bounds.max.1 && bounds.min.0 <= x < bounds.max.0
        invariant bounds.Encloses(old(bounds.min), old(bounds.max))
      {
        PutColumnStep(lo, x, y, item, m0);
      }
    }

    /** One step of `vline`: writes `item` at `(x, y)`, the next point of the column from `lo`. */
    method PutColumnStep(lo: int, x: int, y: int, item: T, ghost m0: map<Pos, seq<T>>)
      requires Valid() && Whole(m0) && lo <= y
      requires forall q :: Cell(m, zero, q) == if q.0 == x && lo <= q.1 < y then item else Cell(m0, zero, q)
      requires y > lo ==> bounds.min.1 <= lo && y <= bounds.max.1 && bounds.min.0 <= x < bounds.max.0
      modifies this, bounds
      ensures Valid()
      ensures forall q :: Cell(m, zero, q) == if q.0 == x && lo <= q.1 < y + 1 then item else Cell(m0, zero, q)
      ensures bounds.min.1 <= lo && y < bounds.max.1 && bounds.min.0 <= x < bounds.max.0
      ensures bounds.Encloses(old(bounds.min), old(bounds.max))
    {
      ghost var before := m;
      Put((x, y), item);
      CellsOfWrite(before, zero, (x, y), item);
      ColumnStep(m0, before, m, zero, x, lo, y, item);
    }
  }
}

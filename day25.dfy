/**
 * Day 25: schematics of locks and keys, five columns of pins each; a key fits a lock
 * when no column's pins overlap, that is when every column's two heights add up to
 * at most seven.
 */
module Day25 {
  import opened Wrappers
  import opened Text
  import opened Grids

  datatype Subj = Key | Lock

  const PIN_HEIGHT: nat := 7

  /** Five pin heights, each a `u8`. */
  datatype Schem = Schem(subj: Subj, pins: seq<nat>)

  // ---------------------------------------------------------------- fitting

  /** `zip(..).all(|(a, b)| a + b <= PIN_HEIGHT)` evaluates without `u8` overflow. */
  predicate ScanOk(p: seq<nat>, q: seq<nat>)
  {
    p == [] || q == [] ||
    (p[0] + q[0] < 256 && (p[0] + q[0] <= PIN_HEIGHT ==> ScanOk(p[1..], q[1..])))
  }

  /** Every pair of heights over the common length adds up to at most `PIN_HEIGHT`. */
  function AllFit(p: seq<nat>, q: seq<nat>): (r: bool)
    requires ScanOk(p, q)
    ensures r <==> forall i :: 0 <= i < |p| && i < |q| ==> p[i] + q[i] <= PIN_HEIGHT
  {
    if p == [] || q == [] then true
    else
      var r := p[0] + q[0] <= PIN_HEIGHT && AllFit(p[1..], q[1..]);
      assert r ==> forall i :: 0 < i < |p| && i < |q| ==> p[i] == p[1..][i - 1] && q[i] == q[1..][i - 1];
      r
  }

  predicate FitsOk(a: Schem, b: Schem)
  {
    ScanOk(a.pins, b.pins)
  }

  /** `Schem::fits`: no column is overfull. */
  function Fits(a: Schem, b: Schem): (r: bool)
    requires FitsOk(a, b)
    ensures r <==> forall i :: 0 <= i < |a.pins| && i < |b.pins| ==> a.pins[i] + b.pins[i] <= PIN_HEIGHT
  {
    AllFit(a.pins, b.pins)
  }

  lemma {:induction false} ScanOkSymmetric(p: seq<nat>, q: seq<nat>)
    requires ScanOk(p, q)
    ensures ScanOk(q, p)
  {
    if p != [] && q != [] && p[0] + q[0] <= PIN_HEIGHT {
      ScanOkSymmetric(p[1..], q[1..]);
    }
  }

  /** A key fits a lock exactly when the lock fits the key. */
  lemma FitsSymmetric(a: Schem, b: Schem)
    requires FitsOk(a, b)
    ensures FitsOk(b, a) && Fits(a, b) == Fits(b, a)
  {
    ScanOkSymmetric(a.pins, b.pins);
  }

  // ---------------------------------------------------------------- parsing

  /** `s` has a character on some line, so `Grid::parse` does not divide by zero. */
  predicate HasCell(s: string)
  {
    exists i :: 0 <= i < |Lines(s)| && Lines(s)[i] != []
  }

  /** The rows of the grid read from `s`: its lines from the first non-empty one on. */
  function Rows(s: string): (rows: seq<string>)
    requires HasCell(s)
    ensures |rows| > 0 && rows[0] != []
  {
    var ls := Lines(s);
    var k := FirstNonEmpty(ls);
    var i :| 0 <= i < |ls| && ls[i] != [];
    assert k <= i;
    ls[k..]
  }

  /** The rows among the first `n` that have a `'#'` in column `x`. */
  function Column(rows: seq<string>, x: nat, n: nat): set<nat>
  {
    set i | 0 <= i < n && i < |rows| && x < |rows[i]| && rows[i][x] == '#'
  }

  /**
   * What a schematic read from `rows` is: a key when its top-left cell is `'.'`, a
   * lock otherwise, with five pins, pin `x` the number of `'#'` in column `x` as a `u8`.
   */
  predicate IsSchemOf(sc: Schem, rows: seq<string>)
    requires |rows| > 0 && rows[0] != []
  {
    (sc.subj == Key <==> rows[0][0] == '.') &&
    |sc.pins| == 5 && forall x :: 0 <= x < 5 ==> sc.pins[x] == |Column(rows, x, |rows|)| % 256
  }

  /** The `'#'` cells in the first `n` rows of column `x`. */
  function ColumnCount(g: Grid<char>, x: int, n: int): (c: nat)
    reads g
    requires g.Valid() && 0 <= n <= g.dy
  {
    if n == 0 then 0
    else ColumnCount(g, x, n - 1) + (if g.Get(Point(x, n - 1)) == Some('#') then 1 else 0)
  }

  /** Counting a column of the grid is counting the column of the rows it holds. */
  lemma {:induction false} ColumnCountOfRows(g: Grid<char>, rows: seq<string>, x: nat, n: nat)
    requires g.Valid() && x < g.dx && n <= g.dy == |rows|
    requires forall p :: g.IsInside(p) ==> |rows[p.y]| == g.dx && g.Get(p) == Some(rows[p.y][p.x])
    ensures ColumnCount(g, x, n) == |Column(rows, x, n)|
  {
    if n == 0 {
      assert Column(rows, x, 0) == {};
    } else {
      ColumnCountOfRows(g, rows, x, n - 1);
      assert g.IsInside(Point(x, n - 1));
      ColumnStep(rows, x, n);
    }
  }

  /** Row `n - 1` adds itself to the column when its cell `x` is `'#'`. */
  lemma ColumnStep(rows: seq<string>, x: nat, n: nat)
    requires 1 <= n <= |rows| && x < |rows[n - 1]|
    ensures Column(rows, x, n) == Column(rows, x, n - 1) + (if rows[n - 1][x] == '#' then {n - 1} else {})
  {
  }

  /** The pins of the first `n` columns, each count cut to a `u8` (`as u8`). */
  function Pins(g: Grid<char>, n: int): (ps: seq<nat>)
    reads g
    requires g.Valid() && 0 <= n <= g.dx
    ensures |ps| == n && forall x :: 0 <= x < n ==> ps[x] == ColumnCount(g, x, g.dy) % 256
  {
    if n == 0 then [] else Pins(g, n - 1) + [ColumnCount(g, n - 1, g.dy) % 256]
  }

  /** The grid read from `s` is rectangular and exactly five columns wide. */
  predicate Parses(s: string)
  {
    HasCell(s) && Rectangular(Lines(s)) && |Rows(s)[0]| == 5
  }

  /** `Schem::from_str`: fails when the grid is jagged or does not have exactly five columns. */
  method FromStr(s: string) returns (r: Result<Schem>)
    requires HasCell(s)
    ensures r.Ok? <==> Parses(s)
    ensures r.Ok? ==> IsSchemOf(r.value, Rows(s))
  {
    var parsed := Grids.Parse(s);
    if parsed.Err? {
      return Err(parsed.error);
    }
    var g := parsed.value;
    ghost var rows := Rows(s);
    assert g.dx == |rows[0]| && g.dy == |rows|;
    assert forall p :: g.IsInside(p) ==> |rows[p.y]| == g.dx && g.Get(p) == Some(rows[p.y][p.x]) by {
      forall p | g.IsInside(p) ensures |rows[p.y]| == g.dx && g.Get(p) == Some(rows[p.y][p.x]) {
        var ls := Lines(s);
        var k := FirstNonEmpty(ls);
        assert rows[p.y] == ls[k + p.y];
      }
    }
    var top := g.Get(Point(0, 0)).value;
    var subj := if top == '.' then Key else Lock;
    var pins := Pins(g, g.dx);
    if |pins| != 5 {
      return Err("could not convert slice to array");
    }
    forall x | 0 <= x < 5 ensures pins[x] == |Column(rows, x, |rows|)| % 256 {
      ColumnCountOfRows(g, rows, x, g.dy);
    }
    r := Ok(Schem(subj, pins));
  }

  /**
   * The `collect` of `parse_schems` stops at the first block that fails, so only the
   * blocks up to there must have a cell (an empty grid divides by zero in `Grid::parse`).
   */
  predicate BlocksScannable(bs: seq<string>)
  {
    forall i :: 0 <= i < |bs| ==> (forall j :: 0 <= j < i ==> Parses(Trim(bs[j]))) ==> HasCell(Trim(bs[i]))
  }

  predicate AllBlocksParse(bs: seq<string>)
  {
    forall i :: 0 <= i < |bs| ==> Parses(Trim(bs[i]))
  }

  /** `parse_schems`: one schematic per block between blank lines, or the first error. */
  method ParseSchems(input: string) returns (r: Result<seq<Schem>>)
    requires BlocksScannable(SplitStr(input, "\n\n"))
    ensures var bs := SplitStr(input, "\n\n");
      r.Ok? <==> AllBlocksParse(bs)
    ensures var bs := SplitStr(input, "\n\n");
      r.Ok? ==> |r.value| == |bs| && forall i :: 0 <= i < |bs| ==> IsSchemOf(r.value[i], Rows(Trim(bs[i])))
  {
    r := ParseBlocks(SplitStr(input, "\n\n"));
  }

  /** The `map`s and the `collect` of `parse_schems` over the blocks. */
  method ParseBlocks(bs: seq<string>) returns (r: Result<seq<Schem>>)
    requires BlocksScannable(bs)
    ensures r.Ok? <==> AllBlocksParse(bs)
    ensures r.Ok? ==> |r.value| == |bs| && forall i :: 0 <= i < |bs| ==> IsSchemOf(r.value[i], Rows(Trim(bs[i])))
  {
    var out: seq<Schem> := [];
    for i := 0 to |bs|
      invariant ParsedPrefix(bs, out, i)
    {
      var block := Trim(bs[i]);
      var sc := FromStr(block);
      if sc.Err? {
        return Err(sc.error);
      }
      ParsedOneMore(bs, out, i, sc.value);
      out := out + [sc.value];
    }
    r := Ok(out);
  }

  /** The first `i` blocks parse, into `out`. */
  predicate ParsedPrefix(bs: seq<string>, out: seq<Schem>, i: nat)
  {
    i <= |bs| && |out| == i && forall j :: 0 <= j < i ==> BlockOf(bs[j], out[j])
  }

  /** Block `b` parses, into `sc`. */
  predicate BlockOf(b: string, sc: Schem)
  {
    Parses(Trim(b)) && IsSchemOf(sc, Rows(Trim(b)))
  }

  lemma ParsedOneMore(bs: seq<string>, out: seq<Schem>, i: nat, sc: Schem)
    requires ParsedPrefix(bs, out, i) && i < |bs| && BlockOf(bs[i], sc)
    ensures ParsedPrefix(bs, out + [sc], i + 1)
  {
    var out' := out + [sc];
    assert forall j :: 0 <= j < i ==> out'[j] == out[j];
    assert out'[i] == sc;
  }

  // ---------------------------------------------------------------- counting

  /** Every key and lock of the list can be tried against each other without overflow. */
  predicate AllFitsOk(schems: seq<Schem>)
  {
    forall i, j {:trigger FitsOk(schems[i], schems[j])} ::
      0 <= i < |schems| && 0 <= j < |schems| && schems[i].subj == Key && schems[j].subj == Lock ==>
      FitsOk(schems[i], schems[j])
  }

  /** The locks among the first `m` schematics that the key `k` fits. */
  function LocksFitting(k: Schem, schems: seq<Schem>, m: nat): nat
    requires m <= |schems|
    requires forall j :: 0 <= j < |schems| && schems[j].subj == Lock ==> FitsOk(k, schems[j])
  {
    if m == 0 then 0
    else LocksFitting(k, schems, m - 1) + (if schems[m - 1].subj == Lock && Fits(k, schems[m - 1]) then 1 else 0)
  }

  /** The sum over the keys among the first `n` schematics. */
  function KeySum(schems: seq<Schem>, n: nat): nat
    requires n <= |schems| && AllFitsOk(schems)
  {
    if n == 0 then 0
    else KeySum(schems, n - 1) + (if schems[n - 1].subj == Key then LocksFitting(schems[n - 1], schems, |schems|) else 0)
  }

  /** `star1`: for each key, the number of locks it fits, summed: the number of fitting (key, lock) pairs. */
  function Star1(schems: seq<Schem>): (r: nat)
    requires AllFitsOk(schems)
    ensures r == |FitPairs(schems, |schems|, |schems|)|
  {
    Star1CountsPairs(schems, |schems|);
    KeySum(schems, |schems|)
  }

  /** A fitting (key, lock) pair: key index `i`, lock index `j`. */
  predicate IsFit(schems: seq<Schem>, i: nat, j: nat)
    requires AllFitsOk(schems)
  {
    i < |schems| && j < |schems| && schems[i].subj == Key && schems[j].subj == Lock && Fits(schems[i], schems[j])
  }

  /** The fitting pairs with a key among the first `n` and a lock among the first `m` schematics. */
  function FitPairs(schems: seq<Schem>, n: nat, m: nat): set<(nat, nat)>
    requires AllFitsOk(schems)
  {
    set i: nat, j: nat | i < n && j < m && IsFit(schems, i, j) :: (i, j)
  }

  /** The fitting pairs with key `i` and a lock among the first `m` schematics. */
  function Row(schems: seq<Schem>, i: nat, m: nat): set<(nat, nat)>
    requires AllFitsOk(schems)
  {
    set j: nat | j < m && IsFit(schems, i, j) :: (i, j)
  }

  lemma {:induction false} RowCount(schems: seq<Schem>, i: nat, m: nat)
    requires AllFitsOk(schems) && i < |schems| && schems[i].subj == Key && m <= |schems|
    ensures LocksFitting(schems[i], schems, m) == |Row(schems, i, m)|
  {
    if m == 0 {
      assert Row(schems, i, m) == {};
    } else {
      RowCount(schems, i, m - 1);
      RowStep(schems, i, m);
    }
  }

  /** Lock `m - 1` joins the row of key `i` when the two fit. */
  lemma RowStep(schems: seq<Schem>, i: nat, m: nat)
    requires AllFitsOk(schems) && 1 <= m
    ensures Row(schems, i, m) == Row(schems, i, m - 1) + (if IsFit(schems, i, m - 1) then {(i, m - 1)} else {})
  {
    forall h | h in Row(schems, i, m) ensures h in Row(schems, i, m - 1) + (if IsFit(schems, i, m - 1) then {(i, m - 1)} else {}) {
      assert h.0 == i && h.1 < m;
    }
  }

  /** `star1` counts exactly the fitting (key, lock) pairs. */
  lemma {:induction false} Star1CountsPairs(schems: seq<Schem>, n: nat)
    requires AllFitsOk(schems) && n <= |schems|
    ensures KeySum(schems, n) == |FitPairs(schems, n, |schems|)|
  {
    var m := |schems|;
    if n == 0 {
      assert FitPairs(schems, 0, m) == {};
    } else {
      Star1CountsPairs(schems, n - 1);
      FitPairsCount(schems, n);
      if schems[n - 1].subj == Key {
        RowCount(schems, n - 1, m);
      } else {
        RowOfLock(schems, n - 1, m);
      }
    }
  }

  /** The pairs of the first `n` keys are those of the first `n - 1` and those of key `n - 1`. */
  lemma FitPairsCount(schems: seq<Schem>, n: nat)
    requires AllFitsOk(schems) && 0 < n <= |schems|
    ensures |FitPairs(schems, n, |schems|)| == |FitPairs(schems, n - 1, |schems|)| + |Row(schems, n - 1, |schems|)|
  {
    FitPairsSplit(schems, n);
  }

  /** A lock starts no fitting pair. */
  lemma RowOfLock(schems: seq<Schem>, i: nat, m: nat)
    requires AllFitsOk(schems) && i < |schems| && schems[i].subj != Key
    ensures Row(schems, i, m) == {}
  {
    forall j: nat ensures !IsFit(schems, i, j) {}
  }

  /** The pairs with a key among the first `n` are those with a key before `n - 1`, and those of key `n - 1`. */
  lemma FitPairsSplit(schems: seq<Schem>, n: nat)
    requires AllFitsOk(schems) && 0 < n <= |schems|
    ensures var m := |schems|;
      FitPairs(schems, n, m) == FitPairs(schems, n - 1, m) + Row(schems, n - 1, m) &&
      FitPairs(schems, n - 1, m) !! Row(schems, n - 1, m) &&
      |FitPairs(schems, n, m)| == |FitPairs(schems, n - 1, m)| + |Row(schems, n - 1, m)|
  {
    var m := |schems|;
    var row := Row(schems, n - 1, m);
    var before := FitPairs(schems, n - 1, m);
    forall pr | pr in FitPairs(schems, n, m) ensures pr in before + row {
      if pr.0 < n - 1 { assert pr in before; } else { assert pr in row; }
    }
    forall pr | pr in row ensures pr !in before { assert pr.0 == n - 1; }
    assert |before + row| == |before| + |row|;
  }
}

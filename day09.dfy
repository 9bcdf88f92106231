/**
 * Day 9: disk fragmenter. The disk map is a run of digits alternating file and free
 * lengths. Part one moves single blocks from the end into the leftmost free blocks; part
 * two moves whole files, highest id first, into the leftmost free span that holds them.
 * The answer is a checksum over the final positions.
 */
module Day09 {
  import opened Wrappers
  import opened Text

  /** `FREE_SPACE`: `u32::MAX`, the id a free entry carries. */
  const FREE_SPACE: nat := 0xFFFF_FFFF

  /** An entry of the disk map: a file id or `FREE_SPACE`, and a length. */
  type Entry = (nat, nat)

  // ---------------------------------------------------------------- the disk map

  /** The `scan` of `diskmap` from the state `(fileId, isFile)`: it ends at the first non-digit. */
  function DiskmapFrom(s: string, fileId: nat, isFile: bool): (r: seq<Entry>)
    ensures |r| <= |s|
    decreases |s|
  {
    if s == [] || !IsDigit(s[0]) then []
    else
      var v := if isFile then fileId else FREE_SPACE;
      [(v, DigitValue(s[0]))] + DiskmapFrom(s[1..], if isFile then fileId + 1 else fileId, !isFile)
  }

  /** `diskmap`: files first, numbered from 0. */
  function Diskmap(s: string): seq<Entry>
  {
    DiskmapFrom(s, 0, true)
  }

  /** The length of the run of digits `s` starts with. */
  function DigitRun(s: string): (n: nat)
    ensures n <= |s|
  {
    if s == [] || !IsDigit(s[0]) then 0 else 1 + DigitRun(s[1..])
  }

  /**
   * The entries alternate, files at even positions numbered by half their position, and
   * the lengths are the digits; the map ends where the digits do.
   */
  lemma {:induction false} DiskmapFromEntries(s: string, fileId: nat, isFile: bool)
    ensures |DiskmapFrom(s, fileId, isFile)| == DigitRun(s)
    ensures forall i :: 0 <= i < DigitRun(s) ==> IsDigit(s[i]) && DiskmapFrom(s, fileId, isFile)[i].1 == DigitValue(s[i])
    ensures forall i :: 0 <= i < DigitRun(s) ==>
      DiskmapFrom(s, fileId, isFile)[i].0 == (if (i % 2 == 0) == isFile then fileId + i / 2 else FREE_SPACE)
    decreases |s|
  {
    if s != [] && IsDigit(s[0]) {
      var next := if isFile then fileId + 1 else fileId;
      DiskmapFromEntries(s[1..], next, !isFile);
      var r := DiskmapFrom(s, fileId, isFile);
      var t := DiskmapFrom(s[1..], next, !isFile);
      forall i | 1 <= i < DigitRun(s)
        ensures r[i] == t[i - 1] && s[i] == s[1..][i - 1]
        ensures r[i].0 == if (i % 2 == 0) == isFile then fileId + i / 2 else FREE_SPACE
      {
        assert (i % 2 == 0) == !((i - 1) % 2 == 0);
        if (i % 2 == 0) == isFile {
          assert next + (i - 1) / 2 == fileId + i / 2;
        }
      }
    }
  }

  /** `diskmap` numbers files `0, 1, 2, ...` at the even entries and marks the odd entries free. */
  lemma DiskmapEntries(s: string)
    ensures |Diskmap(s)| == DigitRun(s)
    ensures forall i :: 0 <= i < |Diskmap(s)| ==> IsDigit(s[i]) && Diskmap(s)[i].1 == DigitValue(s[i])
    ensures forall i :: 0 <= i < |Diskmap(s)| ==> Diskmap(s)[i].0 == if i % 2 == 0 then i / 2 else FREE_SPACE
  {
    DiskmapFromEntries(s, 0, true);
  }

  /**
   * `file_id += 1` does not overflow: at most `u32::MAX` files, so every file id is
   * below `FREE_SPACE`.
   */
  predicate IdsFit(s: string)
  {
    (DigitRun(s) + 1) / 2 <= FREE_SPACE
  }

  // ---------------------------------------------------------------- part one: blocks

  /** `n` copies of `v`. */
  function Repeat(v: nat, n: nat): (r: seq<nat>)
    ensures |r| == n && forall i :: 0 <= i < n ==> r[i] == v
  {
    if n == 0 then [] else Repeat(v, n - 1) + [v]
  }

  /** The `flat_map` of `star1`: every entry as that many blocks of its id. */
  function Blocks(dm: seq<Entry>): seq<nat>
  {
    if dm == [] then [] else Blocks(dm[..|dm| - 1]) + Repeat(dm[|dm| - 1].0, dm[|dm| - 1].1)
  }

  /** The positions of the free blocks, ascending. */
  function FreeIdx(m: seq<nat>): (r: seq<nat>)
    ensures |r| <= |m|
    ensures forall k :: 0 <= k < |r| ==> r[k] < |m| && m[r[k]] == FREE_SPACE
    ensures forall j, k :: 0 <= j < k < |r| ==> r[j] < r[k]
    ensures forall i :: 0 <= i < |m| && m[i] == FREE_SPACE ==> i in r
  {
    if m == [] then []
    else
      var init := m[..|m| - 1];
      FreeIdx(init) + if m[|m| - 1] == FREE_SPACE then [|m| - 1] else []
  }

  /** The positions of the file blocks, descending. */
  function FileIdxRev(m: seq<nat>): (r: seq<nat>)
    ensures |r| <= |m|
    ensures forall k :: 0 <= k < |r| ==> r[k] < |m| && m[r[k]] != FREE_SPACE
    ensures forall j, k :: 0 <= j < k < |r| ==> r[j] > r[k]
    ensures forall i :: 0 <= i < |m| && m[i] != FREE_SPACE ==> i in r
  {
    if m == [] then []
    else
      var init := m[..|m| - 1];
      (if m[|m| - 1] != FREE_SPACE then [|m| - 1] else []) + FileIdxRev(init)
  }

  /** Every block is free or a file. */
  lemma {:induction false} CountsAdd(m: seq<nat>)
    ensures |FreeIdx(m)| + |FileIdxRev(m)| == |m|
  {
    if m != [] {
      CountsAdd(m[..|m| - 1]);
    }
  }

  /** The free positions below `f` come first, and are as many as the free blocks of `m[..f]`. */
  lemma {:induction false} FreeIdxBelow(m: seq<nat>, f: nat)
    requires f <= |m|
    ensures |FreeIdx(m[..f])| <= |FreeIdx(m)|
    ensures forall k :: 0 <= k < |FreeIdx(m)| ==> (FreeIdx(m)[k] < f <==> k < |FreeIdx(m[..f])|)
  {
    if f < |m| {
      var init := m[..|m| - 1];
      FreeIdxBelow(init, f);
      assert init[..f] == m[..f];
    } else {
      assert m[..f] == m;
    }
  }

  /** The file positions at or above `f` come first, and are as many as the file blocks of `m[f..]`. */
  lemma {:induction false} FileIdxAbove(m: seq<nat>, f: nat)
    requires f <= |m|
    ensures |FileIdxRev(m[..f])| <= |FileIdxRev(m)|
    ensures forall k :: 0 <= k < |FileIdxRev(m)| ==> (FileIdxRev(m)[k] >= f <==> k < |FileIdxRev(m)| - |FileIdxRev(m[..f])|)
  {
    if f < |m| {
      var init := m[..|m| - 1];
      FileIdxAbove(init, f);
      assert init[..f] == m[..f];
    } else {
      assert m[..f] == m;
    }
  }

  /** `n` blocks with `fr` and `fi` exchanged pairwise, first pair first; the fold of `acc.swap`. */
  function Swaps(m: seq<nat>, fr: seq<nat>, fi: seq<nat>, n: nat): (r: seq<nat>)
    requires n <= |fr| && n <= |fi|
    requires forall k :: 0 <= k < n ==> fr[k] < |m| && fi[k] < |m|
    ensures |r| == |m|
  {
    if n == 0 then m
    else
      var r := Swaps(m, fr, fi, n - 1);
      r[fr[n - 1] := r[fi[n - 1]]][fi[n - 1] := r[fr[n - 1]]]
  }

  /** The number of pairs `take_while` lets through from pair `k` on: it stops at the first pair out of order. */
  function SwapStop(fr: seq<nat>, fi: seq<nat>, k: nat): (n: nat)
    requires k <= |fr| && k <= |fi|
    ensures k <= n <= |fr| && n <= |fi|
    decreases |fr| - k
  {
    if k < |fr| && k < |fi| && fr[k] < fi[k] then SwapStop(fr, fi, k + 1) else k
  }

  /** The pairs that are swapped: the free positions below the file count against the file positions above it. */
  lemma SwapStopIs(m: seq<nat>)
    ensures SwapStop(FreeIdx(m), FileIdxRev(m), 0) == |FreeIdx(m[..|FileIdxRev(m)|])|
  {
    var fr, fi := FreeIdx(m), FileIdxRev(m);
    var f := |fi|;
    CountsAdd(m);
    var c := |FreeIdx(m[..f])|;
    FreeIdxBelow(m, f);
    FileIdxAbove(m, f);
    CountsAdd(m[..f]);
    assert |fi| - |FileIdxRev(m[..f])| == c;
    SwapStopFrom(fr, fi, f, c, 0);
  }

  /** The stop is `c` when the pairs before `c` are in order and the one at `c`, if any, is not. */
  lemma {:induction false} SwapStopFrom(fr: seq<nat>, fi: seq<nat>, f: nat, c: nat, k: nat)
    requires k <= c <= |fr| && c <= |fi|
    requires forall j :: 0 <= j < |fr| ==> (fr[j] < f <==> j < c)
    requires forall j :: 0 <= j < |fi| ==> (fi[j] >= f <==> j < c)
    ensures SwapStop(fr, fi, k) == c
    decreases c - k
  {
    if k < c {
      SwapStopFrom(fr, fi, f, c, k + 1);
    }
  }

  /** The block loop of `star1`: `acc.swap(x, y)` for each pair `take_while` takes. */
  method SwapLoop(m0: seq<nat>, fr: seq<nat>, fi: seq<nat>) returns (m1: seq<nat>)
    requires forall k :: 0 <= k < |fr| ==> fr[k] < |m0|
    requires forall k :: 0 <= k < |fi| ==> fi[k] < |m0|
    ensures m1 == Swaps(m0, fr, fi, SwapStop(fr, fi, 0))
  {
    var acc := new nat[|m0|](i requires 0 <= i < |m0| => m0[i]);
    assert acc[..] == m0;
    var k := 0;
    while k < |fr| && k < |fi| && fr[k] < fi[k]
      invariant k <= |fr| && k <= |fi|
      invariant acc[..] == Swaps(m0, fr, fi, k)
      invariant SwapStop(fr, fi, 0) == SwapStop(fr, fi, k)
    {
      var x, y := fr[k], fi[k];
      ghost var r := acc[..];
      acc[x], acc[y] := acc[y], acc[x];
      assert acc[..] == r[x := r[y]][y := r[x]];
      k := k + 1;
    }
    m1 := acc[..];
  }

  // ---------------------------------------------------------------- what the swaps do

  /** Free and file positions are told apart by the block they point at. */
  predicate Apart(m: seq<nat>, fr: seq<nat>, fi: seq<nat>)
  {
    (forall k :: 0 <= k < |fr| ==> fr[k] < |m| && m[fr[k]] == FREE_SPACE)
    && (forall k :: 0 <= k < |fi| ==> fi[k] < |m| && m[fi[k]] != FREE_SPACE)
    && (forall j, k :: 0 <= j < k < |fr| ==> fr[j] != fr[k])
    && (forall j, k :: 0 <= j < k < |fi| ==> fi[j] != fi[k])
  }

  /** A position no swap among the first `n` names keeps its block. */
  lemma {:induction false} SwapsUntouched(m: seq<nat>, fr: seq<nat>, fi: seq<nat>, n: nat, i: nat)
    requires n <= |fr| && n <= |fi| && Apart(m, fr, fi)
    requires i < |m| && i !in fr[..n] && i !in fi[..n]
    ensures Swaps(m, fr, fi, n)[i] == m[i]
  {
    if n > 0 {
      assert i != fr[n - 1] && i != fi[n - 1];
      assert i !in fr[..n - 1] && i !in fi[..n - 1] by {
        assert fr[..n - 1] == fr[..n][..n - 1] && fi[..n - 1] == fi[..n][..n - 1];
      }
      SwapsUntouched(m, fr, fi, n - 1, i);
    }
  }

  /** Pair `j` among the first `n` holds each other's blocks. */
  lemma {:induction false} SwapsPair(m: seq<nat>, fr: seq<nat>, fi: seq<nat>, n: nat, j: nat)
    requires n <= |fr| && n <= |fi| && Apart(m, fr, fi) && j < n
    ensures Swaps(m, fr, fi, n)[fr[j]] == m[fi[j]] && Swaps(m, fr, fi, n)[fi[j]] == m[fr[j]]
  {
    var x, y := fr[n - 1], fi[n - 1];
    assert x != y;
    if j == n - 1 {
      FirstTime(m, fr, fi, n - 1);
      SwapsUntouched(m, fr, fi, n - 1, x);
      SwapsUntouched(m, fr, fi, n - 1, y);
    } else {
      assert fr[j] != x && fr[j] != y && fi[j] != x && fi[j] != y;
      SwapsPair(m, fr, fi, n - 1, j);
    }
  }

  /** Pair `n` is named by none of the pairs before it. */
  lemma FirstTime(m: seq<nat>, fr: seq<nat>, fi: seq<nat>, n: nat)
    requires n < |fr| && n < |fi| && Apart(m, fr, fi)
    ensures fr[n] !in fr[..n] && fr[n] !in fi[..n] && fi[n] !in fr[..n] && fi[n] !in fi[..n]
  {
  }

  /** Swapping two blocks keeps the multiset of blocks. */
  lemma SwapKeeps(r: seq<nat>, x: nat, y: nat)
    requires x < |r| && y < |r|
    ensures multiset(r[x := r[y]][y := r[x]]) == multiset(r)
  {
  }

  /** The swaps only rearrange the blocks. */
  lemma {:induction false} SwapsPermute(m: seq<nat>, fr: seq<nat>, fi: seq<nat>, n: nat)
    requires n <= |fr| && n <= |fi| && forall k :: 0 <= k < n ==> fr[k] < |m| && fi[k] < |m|
    ensures multiset(Swaps(m, fr, fi, n)) == multiset(m)
  {
    if n > 0 {
      SwapsPermute(m, fr, fi, n - 1);
      SwapKeeps(Swaps(m, fr, fi, n - 1), fr[n - 1], fi[n - 1]);
    }
  }

  /**
   * After the swaps of `star1` every file block lies before every free block: the
   * positions below the file count hold files, the others free space. Files already below
   * the file count stay where they are.
   */
  lemma SwapsCompact(m: seq<nat>)
    ensures var r := Swaps(m, FreeIdx(m), FileIdxRev(m), SwapStop(FreeIdx(m), FileIdxRev(m), 0));
      && |r| == |m|
      && (forall i :: 0 <= i < |m| ==> (r[i] != FREE_SPACE <==> i < |FileIdxRev(m)|))
      && (forall i :: 0 <= i < |m| && m[i] != FREE_SPACE && i < |FileIdxRev(m)| ==> r[i] == m[i])
  {
    var fr, fi := FreeIdx(m), FileIdxRev(m);
    var f := |fi|;
    CountsAdd(m);
    SwapStopIs(m);
    FreeIdxBelow(m, f);
    FileIdxAbove(m, f);
    CountsAdd(m[..f]);
    var c := |FreeIdx(m[..f])|;
    assert |fi| - |FileIdxRev(m[..f])| == c;
    CompactAll(m, fr, fi, f, c);
  }

  /** `CompactAt` at every position. */
  lemma CompactAll(m: seq<nat>, fr: seq<nat>, fi: seq<nat>, f: nat, c: nat)
    requires Apart(m, fr, fi) && c <= |fr| && c <= |fi|
    requires forall i :: 0 <= i < |m| && m[i] == FREE_SPACE ==> i in fr
    requires forall i :: 0 <= i < |m| && m[i] != FREE_SPACE ==> i in fi
    requires forall k :: 0 <= k < |fr| ==> (fr[k] < f <==> k < c)
    requires forall k :: 0 <= k < |fi| ==> (fi[k] >= f <==> k < c)
    ensures forall i :: 0 <= i < |m| ==> (Swaps(m, fr, fi, c)[i] != FREE_SPACE <==> i < f)
    ensures forall i :: 0 <= i < |m| && m[i] != FREE_SPACE && i < f ==> Swaps(m, fr, fi, c)[i] == m[i]
  {
    forall i | 0 <= i < |m|
      ensures Swaps(m, fr, fi, c)[i] != FREE_SPACE <==> i < f
      ensures m[i] != FREE_SPACE && i < f ==> Swaps(m, fr, fi, c)[i] == m[i]
    {
      CompactAt(m, fr, fi, f, c, i);
    }
  }

  /**
   * One position after the swaps: `fr` lists all free positions and `fi` all file
   * positions, and exactly the first `c` of each lie on the wrong side of `f`.
   */
  lemma CompactAt(m: seq<nat>, fr: seq<nat>, fi: seq<nat>, f: nat, c: nat, i: nat)
    requires Apart(m, fr, fi) && c <= |fr| && c <= |fi| && i < |m|
    requires forall i :: 0 <= i < |m| && m[i] == FREE_SPACE ==> i in fr
    requires forall i :: 0 <= i < |m| && m[i] != FREE_SPACE ==> i in fi
    requires forall k :: 0 <= k < |fr| ==> (fr[k] < f <==> k < c)
    requires forall k :: 0 <= k < |fi| ==> (fi[k] >= f <==> k < c)
    ensures Swaps(m, fr, fi, c)[i] != FREE_SPACE <==> i < f
    ensures m[i] != FREE_SPACE && i < f ==> Swaps(m, fr, fi, c)[i] == m[i]
  {
    if m[i] == FREE_SPACE {
      var k :| 0 <= k < |fr| && fr[k] == i;
      if i < f {
        SwapsPair(m, fr, fi, c, k);
      } else {
        SwapsUntouched(m, fr, fi, c, i);
      }
    } else {
      var k :| 0 <= k < |fi| && fi[k] == i;
      if i < f {
        SwapsUntouched(m, fr, fi, c, i);
      } else {
        SwapsPair(m, fr, fi, c, k);
      }
    }
  }

  /** The checksum of `star1`: the sum of position times id over the file blocks. */
  function BlockChecksum(m: seq<nat>): nat
  {
    if m == [] then 0
    else
      var i := |m| - 1;
      BlockChecksum(m[..i]) + if m[i] != FREE_SPACE then i * m[i] else 0
  }

  /** `star1`: the checksum after moving blocks from the end into the leftmost free blocks. */
  method Star1(input: string) returns (r: nat)
    requires IdsFit(input)
    ensures var m0 := Blocks(Diskmap(input));
      r == BlockChecksum(Swaps(m0, FreeIdx(m0), FileIdxRev(m0), SwapStop(FreeIdx(m0), FileIdxRev(m0), 0)))
  {
    var m0 := Blocks(Diskmap(input));
    var m1 := SwapLoop(m0, FreeIdx(m0), FileIdxRev(m0));
    return BlockChecksum(m1);
  }

  // ---------------------------------------------------------------- part two: files

  /** A file of `star2`: its position, id and length. */
  datatype FileSpan = FileSpan(pos: nat, id: nat, len: nat)

  /** `freemap`: the length of the free span starting at each position. */
  type FreeMap = map<nat, nat>

  /** The `fold` of `star2`: free entries into the free map, files into the list, each at the position the entries before it reach. */
  function Layout(dm: seq<Entry>): (FreeMap, seq<FileSpan>, nat)
  {
    if dm == [] then (map[], [], 0)
    else
      var (fm, files, p) := Layout(dm[..|dm| - 1]);
      var (v, l) := dm[|dm| - 1];
      if v == FREE_SPACE then (fm[p := l], files, p + l) else (fm, files + [FileSpan(p, v, l)], p + l)
  }

  /** The spans `[a, a + la)` and `[b, b + lb)` share a block. */
  predicate Overlap(a: nat, la: nat, b: nat, lb: nat)
  {
    a < b + lb && b < a + la
  }

  /** No two files share a block. */
  ghost predicate FilesApart(files: seq<FileSpan>)
  {
    forall i, j :: 0 <= i < j < |files| ==> !Overlap(files[i].pos, files[i].len, files[j].pos, files[j].len)
  }

  /** No file shares a block with a free span. */
  ghost predicate FilesClear(fm: FreeMap, files: seq<FileSpan>)
  {
    forall i, k :: 0 <= i < |files| && k in fm ==> !Overlap(files[i].pos, files[i].len, k, fm[k])
  }

  /** No two free spans share a block. */
  ghost predicate FreeApart(fm: FreeMap)
  {
    forall k1, k2 :: k1 in fm && k2 in fm && k1 < k2 ==> !Overlap(k1, fm[k1], k2, fm[k2])
  }

  /** The disk is consistent: files and free spans are pairwise disjoint. */
  ghost predicate Disjoint(fm: FreeMap, files: seq<FileSpan>)
  {
    FilesApart(files) && FilesClear(fm, files) && FreeApart(fm)
  }

  /** Every span ends by `p`. */
  ghost predicate Within(fm: FreeMap, files: seq<FileSpan>, p: nat)
  {
    (forall i :: 0 <= i < |files| ==> files[i].pos + files[i].len <= p)
    && (forall k :: k in fm ==> k + fm[k] <= p)
  }

  /** The layout of any disk map is consistent, every span before the end position. */
  lemma {:induction false} LayoutDisjoint(dm: seq<Entry>)
    ensures Disjoint(Layout(dm).0, Layout(dm).1) && Within(Layout(dm).0, Layout(dm).1, Layout(dm).2)
  {
    if dm != [] {
      var init := dm[..|dm| - 1];
      LayoutDisjoint(init);
      var (fm, files, p) := Layout(init);
      var (v, l) := dm[|dm| - 1];
      if v == FREE_SPACE {
        var fm' := fm[p := l];
        assert Layout(dm) == (fm', files, p + l);
        forall k | k in fm' ensures k + fm'[k] <= p + l {
        }
        forall k1, k2 | k1 in fm' && k2 in fm' && k1 < k2
          ensures !Overlap(k1, fm'[k1], k2, fm'[k2])
        {
          if k2 != p {
            assert k1 != p;
          }
        }
        assert FreeApart(fm');
        assert FilesClear(fm', files);
      } else {
        var files' := files + [FileSpan(p, v, l)];
        assert Layout(dm) == (fm, files', p + l);
        forall i | 0 <= i < |files'| ensures files'[i].pos + files'[i].len <= p + l {
        }
        assert FilesApart(files');
        assert FilesClear(fm, files');
      }
    }
  }

  /**
   * With the entries `diskmap` makes, the files of the layout are the even entries in
   * order: file `j` has id `j` and the length of entry `2j`.
   */
  lemma {:induction false} LayoutFiles(dm: seq<Entry>)
    requires forall i :: 0 <= i < |dm| ==> dm[i].0 == if i % 2 == 0 then i / 2 else FREE_SPACE
    requires (|dm| + 1) / 2 <= FREE_SPACE
    ensures |Layout(dm).1| == (|dm| + 1) / 2
    ensures forall j :: 0 <= j < |Layout(dm).1| ==> Layout(dm).1[j].id == j && Layout(dm).1[j].len == dm[2 * j].1
  {
    if dm != [] {
      var init := dm[..|dm| - 1];
      LayoutFiles(init);
      var n := |dm| - 1;
      if n % 2 == 0 {
        assert dm[n].0 == n / 2 < FREE_SPACE;
      }
    }
  }

  /**
   * `freemap.range(..pos).find(|(_, &l)| l >= len)`, searched upwards from `from`: the
   * least start below `pos` of a free span at least `len` long.
   */
  function FirstFit(fm: FreeMap, from: nat, pos: nat, len: nat): (r: Option<nat>)
    ensures r.Some? ==> from <= r.value < pos && r.value in fm && fm[r.value] >= len
    ensures r.Some? ==> forall k :: from <= k < r.value && k in fm ==> fm[k] < len
    ensures r.None? ==> forall k :: from <= k < pos && k in fm ==> fm[k] < len
    decreases pos - from
  {
    if from >= pos then None
    else if from in fm && fm[from] >= len then Some(from)
    else FirstFit(fm, from + 1, pos, len)
  }

  /**
   * The loop body of `star2` for one file: take the first fitting span below it, move the
   * file to its start and give back what is left over.
   */
  function MoveStep(fm: FreeMap, f: FileSpan): (FreeMap, FileSpan)
  {
    match FirstFit(fm, 0, f.pos, f.len)
    case None => (fm, f)
    case Some(k) =>
      var rest := fm - {k};
      (if fm[k] > f.len then rest[k + f.len := fm[k] - f.len] else rest, f.(pos := k))
  }

  /** The loop of `star2` over files `i - 1` down to `0`, highest id first. */
  function MoveAll(fm: FreeMap, files: seq<FileSpan>, i: nat): (r: (FreeMap, seq<FileSpan>))
    requires i <= |files|
    ensures |r.1| == |files|
    decreases i
  {
    if i == 0 then (fm, files)
    else
      var (fm', f) := MoveStep(fm, files[i - 1]);
      MoveAll(fm', files[i - 1 := f], i - 1)
  }

  /** The loop of `star2`, updating the free map and the file positions in place. */
  method MoveFiles(fm0: FreeMap, files0: seq<FileSpan>) returns (files: seq<FileSpan>)
    ensures files == MoveAll(fm0, files0, |files0|).1
  {
    var fm: FreeMap := fm0;
    files := files0;
    var i: nat := |files|;
    while i > 0
      invariant i <= |files| == |files0|
      invariant MoveAll(fm, files, i) == MoveAll(fm0, files0, |files0|)
    {
      var f := files[i - 1];
      ghost var step := MoveStep(fm, f);
      ghost var rest := files[i - 1 := step.1];
      var fit := FirstFit(fm, 0, f.pos, f.len);
      if fit.Some? {
        var newPos := fit.value;
        var freeLen := fm[newPos];
        fm := fm - {newPos};
        files := files[i - 1 := f.(pos := newPos)];
        if freeLen > f.len {
          fm := fm[newPos + f.len := freeLen - f.len];
        }
      }
      assert fm == step.0 && files == rest;
      i := i - 1;
    }
  }

  // ---------------------------------------------------------------- what the moves do

  /**
   * A file moves only to the least start below it of a span that holds it, and stays when
   * there is none.
   */
  lemma MoveStepLeftmost(fm: FreeMap, f: FileSpan)
    ensures var f' := MoveStep(fm, f).1;
      && f'.id == f.id && f'.len == f.len && f'.pos <= f.pos
      && (f'.pos < f.pos ==> f'.pos in fm && fm[f'.pos] >= f.len && forall k :: k < f'.pos && k in fm ==> fm[k] < f.len)
      && (f'.pos == f.pos ==> forall k :: k < f.pos && k in fm ==> fm[k] < f.len)
  {
  }

  /** A span inside a span that misses a third one misses it too. */
  lemma Inside(a: nat, la: nat, b: nat, lb: nat, c: nat, lc: nat)
    requires b <= a && a + la <= b + lb && !Overlap(b, lb, c, lc)
    ensures !Overlap(a, la, c, lc) && !Overlap(c, lc, a, la)
  {
  }

  /** Moving file `i` keeps the files apart: its new span lies inside a free span. */
  lemma StepFilesApart(fm: FreeMap, files: seq<FileSpan>, i: nat)
    requires i < |files| && Disjoint(fm, files)
    ensures FilesApart(files[i := MoveStep(fm, files[i]).1])
  {
    var f := files[i];
    var fit := FirstFit(fm, 0, f.pos, f.len);
    if fit.Some? {
      var k := fit.value;
      var files' := files[i := MoveStep(fm, f).1];
      forall j | 0 <= j < |files| && j != i
        ensures !Overlap(files'[i].pos, files'[i].len, files'[j].pos, files'[j].len)
        ensures !Overlap(files'[j].pos, files'[j].len, files'[i].pos, files'[i].len)
      {
        assert !Overlap(files[j].pos, files[j].len, k, fm[k]);
        Inside(k, f.len, k, fm[k], files[j].pos, files[j].len);
        assert !Overlap(k, fm[k], files[j].pos, files[j].len);
      }
    }
  }

  /** After moving file `i`, the free spans are the old ones without the one taken, and the leftover. */
  lemma StepFreeApart(fm: FreeMap, files: seq<FileSpan>, i: nat)
    requires i < |files| && Disjoint(fm, files)
    ensures FreeApart(MoveStep(fm, files[i]).0)
  {
    var f := files[i];
    var fit := FirstFit(fm, 0, f.pos, f.len);
    if fit.Some? && fm[fit.value] > f.len {
      var k := fit.value;
      var fm' := MoveStep(fm, f).0;
      var left := k + f.len;
      forall k2 | k2 in fm' && k2 != left
        ensures k2 in fm && k2 != k && fm'[k2] == fm[k2]
        ensures !Overlap(left, fm'[left], k2, fm'[k2]) && !Overlap(k2, fm'[k2], left, fm'[left])
      {
        if k < k2 {
          assert !Overlap(k, fm[k], k2, fm[k2]);
        } else {
          assert !Overlap(k2, fm[k2], k, fm[k]);
        }
        Inside(left, fm[k] - f.len, k, fm[k], k2, fm[k2]);
      }
    }
  }

  /** After moving file `i`, no file meets a free span. */
  lemma StepFilesClear(fm: FreeMap, files: seq<FileSpan>, i: nat)
    requires i < |files| && Disjoint(fm, files)
    ensures FilesClear(MoveStep(fm, files[i]).0, files[i := MoveStep(fm, files[i]).1])
  {
    var f := files[i];
    var fit := FirstFit(fm, 0, f.pos, f.len);
    if fit.Some? {
      var k := fit.value;
      var (fm', f') := MoveStep(fm, f);
      var files' := files[i := f'];
      var left := k + f.len;
      forall j, k2 | 0 <= j < |files'| && k2 in fm'
        ensures !Overlap(files'[j].pos, files'[j].len, k2, fm'[k2])
      {
        if k2 == left && fm[k] > f.len {
          if j != i {
            assert !Overlap(files[j].pos, files[j].len, k, fm[k]);
            Inside(left, fm[k] - f.len, k, fm[k], files[j].pos, files[j].len);
          }
        } else {
          assert k2 in fm && k2 != k && fm'[k2] == fm[k2];
          if j == i {
            if k < k2 {
              assert !Overlap(k, fm[k], k2, fm[k2]);
            } else {
              assert !Overlap(k2, fm[k2], k, fm[k]);
            }
            Inside(k, f.len, k, fm[k], k2, fm[k2]);
          }
        }
      }
    }
  }

  /** The moves of `star2` keep the disk consistent. */
  lemma {:induction false} MoveAllDisjoint(fm: FreeMap, files: seq<FileSpan>, i: nat)
    requires i <= |files| && Disjoint(fm, files)
    ensures Disjoint(MoveAll(fm, files, i).0, MoveAll(fm, files, i).1)
    decreases i
  {
    if i > 0 {
      StepFilesApart(fm, files, i - 1);
      StepFreeApart(fm, files, i - 1);
      StepFilesClear(fm, files, i - 1);
      var (fm', f) := MoveStep(fm, files[i - 1]);
      MoveAllDisjoint(fm', files[i - 1 := f], i - 1);
    }
  }

  /** The moves keep every file's id and length and never move a file right; files from `i` on stay put. */
  lemma {:induction false} MoveAllKeeps(fm: FreeMap, files: seq<FileSpan>, i: nat)
    requires i <= |files|
    ensures forall j :: 0 <= j < |files| ==>
      (MoveAll(fm, files, i).1[j].id == files[j].id && MoveAll(fm, files, i).1[j].len == files[j].len
       && MoveAll(fm, files, i).1[j].pos <= files[j].pos)
    ensures forall j :: i <= j < |files| ==> MoveAll(fm, files, i).1[j] == files[j]
    decreases i
  {
    if i > 0 {
      MoveStepLeftmost(fm, files[i - 1]);
      var (fm', f) := MoveStep(fm, files[i - 1]);
      MoveAllKeeps(fm', files[i - 1 := f], i - 1);
    }
  }

  // ---------------------------------------------------------------- the checksum of part two

  /** `pos * len + len * (len - 1) / 2`, times the id; `len - 1` needs a file of at least one block. */
  function FileTerm(f: FileSpan): nat
    requires f.len >= 1
  {
    (f.pos * f.len + f.len * (f.len - 1) / 2) * f.id
  }

  /** `lo + (lo + 1) + ... + (lo + n - 1)`. */
  function SpanSum(lo: nat, n: nat): nat
  {
    if n == 0 then 0 else SpanSum(lo, n - 1) + (lo + n - 1)
  }

  /** Twice the sum of a span, without the halving. */
  lemma {:induction false} SpanSumTwice(lo: nat, n: nat)
    ensures 2 * SpanSum(lo, n) == 2 * lo * n + n * (n - 1)
  {
    if n > 0 {
      SpanSumTwice(lo, n - 1);
      assert n * (n - 1) == (n - 1) * (n - 2) + 2 * (n - 1);
    }
  }

  /** A file's term is its id times the sum of the positions it covers. */
  lemma FileTermIsSpanSum(f: FileSpan)
    requires f.len >= 1
    ensures FileTerm(f) == f.id * SpanSum(f.pos, f.len)
  {
    var pl := f.pos * f.len;
    SpanSumTwice(f.pos, f.len);
    assert 2 * f.pos * f.len == 2 * pl;
    Half(f.len * (f.len - 1), SpanSum(f.pos, f.len) - pl);
    assert pl + f.len * (f.len - 1) / 2 == SpanSum(f.pos, f.len);
  }

  /** Halving an even number. */
  lemma Half(t: int, h: int)
    requires t == 2 * h
    ensures t / 2 == h
  {
  }

  /** The checksum of `star2`: the sum of the file terms. */
  function FileChecksum(files: seq<FileSpan>): nat
    requires forall j :: 0 <= j < |files| ==> files[j].len >= 1
  {
    if files == [] then 0 else FileChecksum(files[..|files| - 1]) + FileTerm(files[|files| - 1])
  }

  /** Every file digit is non-zero, so `len - 1` does not underflow. */
  predicate FileDigitsNonZero(s: string)
  {
    forall i :: 0 <= i < DigitRun(s) && i % 2 == 0 ==> s[i] != '0'
  }

  /** The files of an input, numbered `0, 1, 2, ...`, each at least one block long. */
  lemma InputFiles(input: string)
    requires IdsFit(input) && FileDigitsNonZero(input)
    ensures var files := Layout(Diskmap(input)).1;
      forall j :: 0 <= j < |files| ==> files[j].id == j && files[j].len >= 1
  {
    var dm := Diskmap(input);
    DiskmapEntries(input);
    LayoutFiles(dm);
    var files := Layout(dm).1;
    forall j | 0 <= j < |files|
      ensures files[j].len >= 1
    {
      assert files[j].len == DigitValue(input[2 * j]);
    }
  }

  /**
   * After the moves of `star2` no two files share a block and no file meets a free span;
   * every file keeps its id and length and ends up no further right.
   */
  lemma Star2Moves(input: string)
    requires IdsFit(input) && FileDigitsNonZero(input)
    ensures var (fm, files, _) := Layout(Diskmap(input));
      var r := MoveAll(fm, files, |files|);
      && Disjoint(r.0, r.1)
      && forall j :: 0 <= j < |files| ==> r.1[j].id == j && r.1[j].len == files[j].len && r.1[j].pos <= files[j].pos
  {
    var (fm, files, _) := Layout(Diskmap(input));
    LayoutDisjoint(Diskmap(input));
    InputFiles(input);
    MoveAllDisjoint(fm, files, |files|);
    MoveAllKeeps(fm, files, |files|);
  }

  /** `star2`: the checksum after moving whole files, highest id first, to the leftmost span that holds them. */
  method Star2(input: string) returns (r: nat)
    requires IdsFit(input) && FileDigitsNonZero(input)
    ensures var (fm, files, _) := Layout(Diskmap(input));
      var moved := MoveAll(fm, files, |files|).1;
      (forall j :: 0 <= j < |moved| ==> moved[j].len >= 1) && r == FileChecksum(moved)
  {
    var layout := Layout(Diskmap(input));
    var fm, files := layout.0, layout.1;
    var moved := MoveFiles(fm, files);
    InputFiles(input);
    assert files == Layout(Diskmap(input)).1;
    assert forall j :: 0 <= j < |files| ==> files[j].len >= 1;
    MovedLengths(fm, files, moved);
    return FileChecksum(moved);
  }

  /** Files at least one block long stay so after the moves. */
  lemma MovedLengths(fm: FreeMap, files: seq<FileSpan>, moved: seq<FileSpan>)
    requires forall j :: 0 <= j < |files| ==> files[j].len >= 1
    requires moved == MoveAll(fm, files, |files|).1
    ensures forall j :: 0 <= j < |moved| ==> moved[j].len >= 1
  {
    MoveAllKeeps(fm, files, |files|);
  }
}

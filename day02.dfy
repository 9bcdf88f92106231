/**
 * Day 2: a report (one line of levels) is safe when its levels all increase or all
 * decrease, by between one and three at each step.
 */
module Day02 {
  import opened Wrappers
  import opened Text
  import opened Bits

  /** `str::parse::<i64>`: a value read is an `i64`. */
  function Parse64(w: string): (r: Option<int>)
    ensures r.Some? ==> IsI64(r.value)
  {
    ParseInt(w, I64_MIN, I64_MAX)
  }

  /** Every `i64` reads back from its decimal form. */
  lemma Parse64OfText(v: int)
    requires IsI64(v)
    ensures Parse64(IntToString(v)) == Some(v)
  {
    ParseIntOfIntToString(v, I64_MIN, I64_MAX);
  }


  /**
   * The rest of the line, after the level `prev`, can be examined without panic:
   * `all` stops at the first difference outside `lo..=hi`, so only the words up to
   * there must be `i64` levels whose difference from the one before fits in `i64`.
   */
  predicate Scannable(prev: int, ws: seq<string>, lo: int, hi: int)
    decreases |ws|
  {
    ws == [] ||
    (Parse64(ws[0]).Some? && IsI64(Parse64(ws[0]).value - prev) &&
     (lo <= Parse64(ws[0]).value - prev <= hi ==> Scannable(Parse64(ws[0]).value, ws[1..], lo, hi)))
  }

  /** `deltas.all(|x| ok_range.contains(&x))` for the levels after `prev`. */
  function AllInRange(prev: int, ws: seq<string>, lo: int, hi: int): bool
    requires Scannable(prev, ws, lo, hi)
    decreases |ws|
  {
    ws == [] ||
    (var v := Parse64(ws[0]).value;
     lo <= v - prev <= hi && AllInRange(v, ws[1..], lo, hi))
  }

  /** The range the sign of the first difference selects. */
  function RangeOf(first: int): (int, int)
  {
    if first < 0 then (-3, -1) else (1, 3)
  }

  /**
   * `line_safe` does not panic on a line with these words: there are at least two,
   * the first two are `i64` levels, their difference fits in `i64` and is not
   * `i64::MIN` (whose `abs` overflows), and if that difference is acceptable the
   * rest of the line is scannable.
   */
  predicate ReportScannable(ws: seq<string>)
  {
    |ws| >= 2 && Parse64(ws[0]).Some? && Parse64(ws[1]).Some? &&
    var first := Parse64(ws[1]).value - Parse64(ws[0]).value;
    IsI64(first) && first != I64_MIN &&
    (first != 0 && Abs(first) <= 3 ==>
      Scannable(Parse64(ws[1]).value, ws[2..], RangeOf(first).0, RangeOf(first).1))
  }

  /** The first difference of a report, `x1 - x0` (the scan's `x0 - 0` is skipped). */
  function First(ws: seq<string>): int
    requires ReportScannable(ws)
  {
    Parse64(ws[1]).value - Parse64(ws[0]).value
  }

  /** The verdict on a report's words: the first difference fixes the direction, and every difference must follow it. */
  function ReportSafe(ws: seq<string>): (safe: bool)
    requires ReportScannable(ws)
    ensures First(ws) == 0 || Abs(First(ws)) > 3 ==> !safe
    ensures safe ==> AllInRange(Parse64(ws[1]).value, ws[2..], RangeOf(First(ws)).0, RangeOf(First(ws)).1)
  {
    var first := First(ws);
    if first == 0 || !(1 <= Abs(first) <= 3) then false
    else
      var (lo, hi) := RangeOf(first);
      AllInRange(Parse64(ws[1]).value, ws[2..], lo, hi)
  }

  predicate LineScannable(line: string)
  {
    ReportScannable(Words(line))
  }

  /** `line_safe`. */
  function LineSafe(line: string): bool
    requires LineScannable(line)
  {
    ReportSafe(Words(line))
  }

  // ---------------------------------------------------------------- the rule on levels

  predicate AllParse(ws: seq<string>)
  {
    forall i :: 0 <= i < |ws| ==> Parse64(ws[i]).Some?
  }

  /** The levels of a report whose every word is an `i64`. */
  function Levels(ws: seq<string>): (vs: seq<int>)
    requires AllParse(ws)
    ensures |vs| == |ws| && forall i :: 0 <= i < |ws| ==> vs[i] == Parse64(ws[i]).value
  {
    if ws == [] then [] else [Parse64(ws[0]).value] + Levels(ws[1..])
  }

  /** Every difference between neighbours lies in `lo..=hi`. */
  predicate StepsIn(vs: seq<int>, lo: int, hi: int)
  {
    forall i :: 0 < i < |vs| ==> lo <= vs[i] - vs[i - 1] <= hi
  }

  /** The puzzle's rule: all increasing by 1 to 3, or all decreasing by 1 to 3. */
  predicate Safe(vs: seq<int>)
  {
    StepsIn(vs, 1, 3) || StepsIn(vs, -3, -1)
  }

  lemma {:induction false} AllInRangeIsStepsIn(prev: int, ws: seq<string>, lo: int, hi: int)
    requires Scannable(prev, ws, lo, hi) && AllParse(ws)
    ensures AllInRange(prev, ws, lo, hi) <==> StepsIn([prev] + Levels(ws), lo, hi)
    decreases |ws|
  {
    if ws != [] {
      var v := Parse64(ws[0]).value;
      assert Levels(ws) == [v] + Levels(ws[1..]);
      StepsInCons(prev, Levels(ws), lo, hi);
      if lo <= v - prev <= hi {
        AllInRangeIsStepsIn(v, ws[1..], lo, hi);
      }
    }
  }

  /**
   * On a report whose every word is an `i64` level, the verdict is exactly the rule:
   * all differences in `1..=3`, or all in `-3..=-1`.
   */
  lemma ReportSafeIsSafe(ws: seq<string>)
    requires ReportScannable(ws) && AllParse(ws)
    ensures ReportSafe(ws) <==> Safe(Levels(ws))
  {
    var v0, v1 := Parse64(ws[0]).value, Parse64(ws[1]).value;
    var rest := Levels(ws[2..]);
    assert Levels(ws) == [v0] + ([v1] + rest) by {
      assert Levels(ws[1..]) == [v1] + Levels(ws[1..][1..]);
      assert ws[1..][1..] == ws[2..];
    }
    StepsInCons(v0, [v1] + rest, 1, 3);
    StepsInCons(v0, [v1] + rest, -3, -1);
    var first := v1 - v0;
    if first != 0 && 1 <= Abs(first) <= 3 {
      var (lo, hi) := RangeOf(first);
      AllInRangeIsStepsIn(v1, ws[2..], lo, hi);
    }
  }

  /** The same on a line: `line_safe` holds iff the levels are safe by the rule. */
  lemma LineSafeIsSafe(line: string)
    requires LineScannable(line) && AllParse(Words(line))
    ensures LineSafe(line) <==> Safe(Levels(Words(line)))
  {
    ReportSafeIsSafe(Words(line));
  }

  /** Prepending a level keeps the rule exactly when the new first difference is in range. */
  lemma StepsInCons(v: int, vs: seq<int>, lo: int, hi: int)
    requires |vs| > 0
    ensures StepsIn([v] + vs, lo, hi) <==> lo <= vs[0] - v <= hi && StepsIn(vs, lo, hi)
  {
    var s := [v] + vs;
    if lo <= vs[0] - v <= hi && StepsIn(vs, lo, hi) {
      forall i | 0 < i < |s| ensures lo <= s[i] - s[i - 1] <= hi {
        if i > 1 { assert s[i] - s[i - 1] == vs[i - 1] - vs[i - 2]; }
      }
    }
    if StepsIn(s, lo, hi) {
      assert lo <= s[1] - s[0] <= hi;
      forall i | 0 < i < |vs| ensures lo <= vs[i] - vs[i - 1] <= hi {
        assert lo <= s[i + 1] - s[i] <= hi;
        assert vs[i] - vs[i - 1] == s[i + 1] - s[i];
      }
    }
  }

  // ---------------------------------------------------------------- counting

  /** How many of the lines are safe. */
  function SafeCount(ls: seq<string>): (n: nat)
    requires forall i :: 0 <= i < |ls| ==> LineScannable(ls[i])
    ensures n <= |ls|
  {
    if ls == [] then 0 else SafeCount(ls[..|ls| - 1]) + (if LineSafe(ls[|ls| - 1]) then 1 else 0)
  }

  /** The count over two blocks of lines is the sum of the counts. */
  lemma {:induction false} SafeCountAppend(a: seq<string>, b: seq<string>)
    requires forall i :: 0 <= i < |a| ==> LineScannable(a[i])
    requires forall i :: 0 <= i < |b| ==> LineScannable(b[i])
    ensures forall i :: 0 <= i < |a + b| ==> LineScannable((a + b)[i])
    ensures SafeCount(a + b) == SafeCount(a) + SafeCount(b)
    decreases |b|
  {
    assert forall i :: 0 <= i < |a + b| ==> (a + b)[i] == if i < |a| then a[i] else b[i - |a|];
    if b == [] {
      assert a + b == a;
    } else {
      var b' := b[..|b| - 1];
      SafeCountAppend(a, b');
      assert (a + b)[..|a + b| - 1] == a + b';
    }
  }

  /** `count_safe`: the number of safe reports in the input. */
  function CountSafe(input: string): (n: nat)
    requires forall l :: l in Lines(input) ==> LineScannable(l)
    ensures n <= |Lines(input)|
  {
    SafeCount(Lines(input))
  }
}

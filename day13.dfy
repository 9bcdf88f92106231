/**
 * Day 13: claw machines. Each machine has two buttons that move the claw by fixed vectors
 * and a prize position; pressing A costs 3 tokens and B costs 1. The solution estimates
 * the press counts `m` and `n` in floating point and accepts them only when they land the
 * claw on the prize exactly. The estimate is a parameter here; the exact integer solution
 * by Cramer's rule is the reference it is compared with.
 */
module Day13 {
  import opened Wrappers
  import opened Text
  import opened Bits
  import opened Grids

  datatype Machine = Machine(a: Point, b: Point, prize: Point)

  const A_PRICE: int := 3
  const B_PRICE: int := 1
  const STAR_2_SHIFT: int := 10_000_000_000_000

  // ---------------------------------------------------------------- the integer check

  /** Pressing A `m` times and B `n` times lands on the prize moved by `shift` in both axes. */
  predicate Solves(mc: Machine, shift: int, m: int, n: int)
  {
    m * mc.a.x + n * mc.b.x == mc.prize.x + shift && m * mc.a.y + n * mc.b.y == mc.prize.y + shift
  }

  /** `find_min_tokens_shift` after the estimate: the tokens for `m` and `n` if they hit the prize. */
  function FindMinTokensShift(mc: Machine, shift: int, m: int, n: int): (r: Option<int>)
    ensures r.Some? <==> Solves(mc, shift, m, n)
    ensures r.Some? ==> r.value == A_PRICE * m + B_PRICE * n
  {
    if (mc.prize.x + shift, mc.prize.y + shift) == (m * mc.a.x + n * mc.b.x, m * mc.a.y + n * mc.b.y)
    then Some(m * A_PRICE + n * B_PRICE)
    else None
  }

  /** The determinant of the button vectors: zero when the buttons are colinear. */
  function Det(mc: Machine): int
  {
    mc.a.x * mc.b.y - mc.a.y * mc.b.x
  }

  /** The exact solution by Cramer's rule, when the buttons are not colinear and it is integral. */
  function CramerSolve(mc: Machine, shift: int): Option<(int, int)>
  {
    var d := Det(mc);
    var px, py := mc.prize.x + shift, mc.prize.y + shift;
    var mm, nn := px * mc.b.y - py * mc.b.x, mc.a.x * py - mc.a.y * px;
    if d != 0 && mm % d == 0 && nn % d == 0 then Some((mm / d, nn / d)) else None
  }

  /** A product is zero only when a factor is. */
  lemma MulZero(d: int, k: int)
    requires d != 0 && d * k == 0
    ensures k == 0
  {
  }

  /** A non-zero multiple is at least as far from zero as the factor. */
  lemma MulAway(d: int, j: int)
    requires d != 0 && j != 0
    ensures d * j >= d || d * j <= -d
    ensures d * j >= -d || d * j <= d
  {
  }

  /** Euclidean division undoes a multiplication. */
  lemma MulDiv(k: int, d: int)
    requires d != 0
    ensures (k * d) / d == k && (k * d) % d == 0
  {
    var a := k * d;
    var q, r := a / d, a % d;
    assert a == d * q + r;
    assert d * (k - q) == r by {
      assert d * (k - q) == d * k - d * q;
    }
    if k != q {
      MulAway(d, k - q);
    }
  }

  /** Any solution times the determinant is the numerator of Cramer's rule. */
  lemma SolutionTimesDet(xa: int, ya: int, xb: int, yb: int, px: int, py: int, m: int, n: int)
    requires m * xa + n * xb == px && m * ya + n * yb == py
    ensures m * (xa * yb - ya * xb) == px * yb - py * xb
    ensures n * (xa * yb - ya * xb) == xa * py - ya * px
  {
    calc {
      px * yb - py * xb;
      (m * xa + n * xb) * yb - (m * ya + n * yb) * xb;
      m * (xa * yb) + n * (xb * yb) - m * (ya * xb) - n * (yb * xb);
      m * (xa * yb - ya * xb);
    }
    calc {
      xa * py - ya * px;
      xa * (m * ya + n * yb) - ya * (m * xa + n * xb);
      m * (xa * ya) + n * (xa * yb) - m * (ya * xa) - n * (ya * xb);
      n * (xa * yb - ya * xb);
    }
  }

  /** Numerators that are the determinant's multiples of `m` and `n` make `m`, `n` a solution. */
  lemma NumeratorsSolve(xa: int, ya: int, xb: int, yb: int, px: int, py: int, m: int, n: int)
    requires xa * yb - ya * xb != 0
    requires m * (xa * yb - ya * xb) == px * yb - py * xb
    requires n * (xa * yb - ya * xb) == xa * py - ya * px
    ensures m * xa + n * xb == px && m * ya + n * yb == py
  {
    var d := xa * yb - ya * xb;
    calc {
      d * (m * xa + n * xb - px);
      (m * d) * xa + (n * d) * xb - d * px;
      (px * yb - py * xb) * xa + (xa * py - ya * px) * xb - (xa * yb - ya * xb) * px;
      0;
    }
    MulZero(d, m * xa + n * xb - px);
    calc {
      d * (m * ya + n * yb - py);
      (m * d) * ya + (n * d) * yb - d * py;
      (px * yb - py * xb) * ya + (xa * py - ya * px) * yb - (xa * yb - ya * xb) * py;
      0;
    }
    MulZero(d, m * ya + n * yb - py);
  }

  /** Cramer's rule gives a solution. */
  lemma CramerSound(mc: Machine, shift: int)
    requires CramerSolve(mc, shift).Some?
    ensures Solves(mc, shift, CramerSolve(mc, shift).value.0, CramerSolve(mc, shift).value.1)
  {
    var px, py := mc.prize.x + shift, mc.prize.y + shift;
    var d := Det(mc);
    var mm, nn := px * mc.b.y - py * mc.b.x, mc.a.x * py - mc.a.y * px;
    assert d != 0 && mm % d == 0 && nn % d == 0;
    ExactDiv(mm, d);
    ExactDiv(nn, d);
    NumeratorsSolve(mc.a.x, mc.a.y, mc.b.x, mc.b.y, px, py, mm / d, nn / d);
  }

  /** A numerator that the divisor divides is the divisor times the quotient. */
  lemma ExactDiv(a: int, d: int)
    requires d != 0 && a % d == 0
    ensures (a / d) * d == a
  {
  }

  /** With buttons that are not colinear, the only solution is Cramer's. */
  lemma CramerComplete(mc: Machine, shift: int, m: int, n: int)
    requires Det(mc) != 0 && Solves(mc, shift, m, n)
    ensures CramerSolve(mc, shift) == Some((m, n))
  {
    var px, py := mc.prize.x + shift, mc.prize.y + shift;
    SolutionTimesDet(mc.a.x, mc.a.y, mc.b.x, mc.b.y, px, py, m, n);
    MulDiv(m, Det(mc));
    MulDiv(n, Det(mc));
  }

  /**
   * Whatever the estimate, a machine whose buttons are not colinear pays out exactly when
   * Cramer's rule has an integral solution, and then the estimate is that solution.
   */
  lemma FindMinTokensIsCramer(mc: Machine, shift: int, m: int, n: int)
    requires Det(mc) != 0
    ensures FindMinTokensShift(mc, shift, m, n).Some? <==> CramerSolve(mc, shift) == Some((m, n))
  {
    if Solves(mc, shift, m, n) {
      CramerComplete(mc, shift, m, n);
    }
    if CramerSolve(mc, shift) == Some((m, n)) {
      CramerSound(mc, shift);
    }
  }

  // ---------------------------------------------------------------- the sum

  /** A floating-point estimate of the presses, one per machine and shift. */
  type Estimate = (Machine, int) -> (int, int)

  /** `min_tokens_shift`: the tokens of the machines whose estimate hits the prize. */
  function MinTokensShift(ms: seq<Machine>, shift: int, est: Estimate): int
  {
    if ms == [] then 0
    else
      var mc := ms[|ms| - 1];
      var r := FindMinTokensShift(mc, shift, est(mc, shift).0, est(mc, shift).1);
      MinTokensShift(ms[..|ms| - 1], shift, est) + (if r.Some? then r.value else 0)
  }

  /** The tokens of the machines with an integral solution, by Cramer's rule. */
  function ExactTokens(ms: seq<Machine>, shift: int): int
  {
    if ms == [] then 0
    else
      var r := CramerSolve(ms[|ms| - 1], shift);
      ExactTokens(ms[..|ms| - 1], shift) + (if r.Some? then A_PRICE * r.value.0 + B_PRICE * r.value.1 else 0)
  }

  /** An estimate that finds every integral solution makes the sum the exact one. */
  lemma {:induction false} MinTokensExact(ms: seq<Machine>, shift: int, est: Estimate)
    requires forall i :: 0 <= i < |ms| ==> Det(ms[i]) != 0
    requires forall i :: 0 <= i < |ms| && CramerSolve(ms[i], shift).Some? ==> est(ms[i], shift) == CramerSolve(ms[i], shift).value
    ensures MinTokensShift(ms, shift, est) == ExactTokens(ms, shift)
  {
    if ms != [] {
      var mc := ms[|ms| - 1];
      MinTokensExact(ms[..|ms| - 1], shift, est);
      FindMinTokensIsCramer(mc, shift, est(mc, shift).0, est(mc, shift).1);
    }
  }

  /** The example's machines. */
  const SAMPLE: seq<Machine> := [
    Machine(Point(94, 34), Point(22, 67), Point(8400, 5400)),
    Machine(Point(26, 66), Point(67, 21), Point(12748, 12176)),
    Machine(Point(17, 86), Point(84, 37), Point(7870, 6450)),
    Machine(Point(69, 23), Point(27, 71), Point(18641, 10279))]

  /** In the example the first and third machines pay 280 and 200 tokens, 480 in all. */
  lemma SampleTokens()
    ensures ExactTokens(SAMPLE, 0) == 480
    ensures CramerSolve(SAMPLE[0], 0) == Some((80, 40)) && CramerSolve(SAMPLE[2], 0) == Some((38, 86))
    ensures CramerSolve(SAMPLE[1], 0).None? && CramerSolve(SAMPLE[3], 0).None?
  {
    var s1, s2, s3 := SAMPLE[..1], SAMPLE[..2], SAMPLE[..3];
    assert s1[..0] == [] && s2[..1] == s1 && s3[..2] == s2 && SAMPLE[..3] == s3;
    assert ExactTokens(s1, 0) == 280;
    assert ExactTokens(s2, 0) == 280;
    assert ExactTokens(s3, 0) == 480;
  }

  /** With the prizes moved, only the second and fourth machines pay out. */
  lemma SampleShifted()
    ensures CramerSolve(SAMPLE[0], STAR_2_SHIFT).None? && CramerSolve(SAMPLE[2], STAR_2_SHIFT).None?
    ensures CramerSolve(SAMPLE[1], STAR_2_SHIFT) == Some((118679050709, 103199174542))
    ensures CramerSolve(SAMPLE[3], STAR_2_SHIFT) == Some((102851800151, 107526881786))
  {
  }

  // ---------------------------------------------------------------- parsing

  /** `parse_num`: the number after the axis letter and any ` `, `=` and `+`. */
  function ParseNum(s: string, what: char): (r: Result<int>)
    ensures r.Ok? ==> I32_MIN <= r.value <= I32_MAX
  {
    StrParse(Trim(TrimStartMatches(s, {what, ' ', '=', '+'})), I32_MIN, I32_MAX)
  }

  /** `parse_def`: a line `<prefix>: X?<x>, Y?<y>`, or an error naming what is missing. */
  function ParseDef(line: Option<string>, prefix: string): (r: Result<Point>)
    ensures r.Ok? ==> I32_MIN <= r.value.x <= I32_MAX && I32_MIN <= r.value.y <= I32_MAX
  {
    match line
    case None => Err("unexpected eof")
    case Some(l) =>
      if |l| < |prefix| || l[..|prefix|] != prefix then Err("expected " + prefix + " in " + l)
      else
        var zs := Trim(TrimStartMatches(l[|prefix|..], {':'}));
        match SplitOnce(zs, ',')
        case None => Err("invalid line " + l)
        case Some((xs, ys)) =>
          match ParseNum(xs, 'X')
          case Err(e) => Err(e)
          case Ok(x) =>
            match ParseNum(ys, 'Y')
            case Err(e) => Err(e)
            case Ok(y) => Ok(Point(x, y))
  }

  /** The line at `i`, if there is one: the next item of the line iterator. */
  function LineAt(lines: seq<string>, i: nat): Option<string>
  {
    if i < |lines| then Some(lines[i]) else None
  }

  /** The machine described by the three lines from `i`. */
  function GroupOf(lines: seq<string>, i: nat): Result<Machine>
  {
    match ParseDef(LineAt(lines, i), "Button A")
    case Err(e) => Err(e)
    case Ok(a) =>
      match ParseDef(LineAt(lines, i + 1), "Button B")
      case Err(e) => Err(e)
      case Ok(b) =>
        match ParseDef(LineAt(lines, i + 2), "Prize")
        case Err(e) => Err(e)
        case Ok(prize) => Ok(Machine(a, b, prize))
  }

  function Prepend<T>(xs: seq<T>, r: Result<seq<T>>): Result<seq<T>>
  {
    match r
    case Err(e) => Err(e)
    case Ok(rest) => Ok(xs + rest)
  }

  lemma PrependEmpty<T>(xs: seq<T>, r: Result<seq<T>>)
    ensures Prepend([], r) == r && Prepend(xs, Ok([])) == Ok(xs)
  {
    if r.Ok? {
      assert [] + r.value == r.value;
    }
    assert xs + [] == xs;
  }

  lemma PrependPrepend<T>(xs: seq<T>, ys: seq<T>, r: Result<seq<T>>)
    ensures Prepend(xs, Prepend(ys, r)) == Prepend(xs + ys, r)
  {
    if r.Ok? {
      assert xs + (ys + r.value) == xs + ys + r.value;
    }
  }

  /**
   * Groups read by `group` from line `i` on, each followed by an empty line or by the end
   * of the input; anything else after a group is an error.
   */
  function Grouped<T>(lines: seq<string>, i: nat, group: (seq<string>, nat) -> Result<T>): Result<seq<T>>
    decreases |lines| - i
  {
    if i >= |lines| then Ok([])
    else match group(lines, i)
      case Err(e) => Err(e)
      case Ok(x) =>
        if |lines| <= i + 3 then Ok([x])
        else if lines[i + 3] == "" then Prepend([x], Grouped(lines, i + 4, group))
        else Err("expected empty line, got " + lines[i + 3])
  }

  /** Machines of three lines each, an empty line after all but maybe the last. */
  function MachinesOf(lines: seq<string>): Result<seq<Machine>>
  {
    Grouped(lines, 0, GroupOf)
  }

  /** `parse_machines`: read machine after machine until the input ends. */
  method ParseMachines(input: string) returns (r: Result<seq<Machine>>)
    ensures r == MachinesOf(Lines(input))
  {
    var lines := Lines(input);
    var ms: seq<Machine> := [];
    var i := 0;
    PrependEmpty(ms, MachinesOf(lines));
    while i < |lines|
      invariant MachinesOf(lines) == Prepend(ms, Grouped(lines, i, GroupOf))
      decreases |lines| - i
    {
      var a := ParseDef(Some(lines[i]), "Button A");
      if a.Err? {
        return Err(a.error);
      }
      var b := ParseDef(LineAt(lines, i + 1), "Button B");
      if b.Err? {
        return Err(b.error);
      }
      var prize := ParseDef(LineAt(lines, i + 2), "Prize");
      if prize.Err? {
        return Err(prize.error);
      }
      var mc := Machine(a.value, b.value, prize.value);
      assert GroupOf(lines, i) == Ok(mc);
      PrependPrepend(ms, [mc], Grouped(lines, i + 4, GroupOf));
      ms := ms + [mc];
      if i + 3 >= |lines| {
        break;
      } else if lines[i + 3] == "" {
        i := i + 4;
      } else {
        return Err("expected empty line, got " + lines[i + 3]);
      }
    }
    PrependEmpty(ms, MachinesOf(lines));
    return Ok(ms);
  }

  /**
   * What a successful read looks like: one group every four lines, read by `group`,
   * with an empty line between two groups and nothing after the last but an empty line.
   */
  ghost predicate GroupShape<T>(lines: seq<string>, i: nat, group: (seq<string>, nat) -> Result<T>, xs: seq<T>)
  {
    i <= |lines|
    && (if xs == [] then i == |lines| else 4 * |xs| - 3 <= |lines| - i <= 4 * |xs|)
    && (forall k :: 0 <= k < |xs| ==> group(lines, i + 4 * k) == Ok(xs[k]))
    && (forall k :: 0 <= k < |xs| && i + 4 * k + 3 < |lines| ==> lines[i + 4 * k + 3] == "")
  }

  /** A successful read has that shape. */
  lemma {:induction false} GroupedShape<T>(lines: seq<string>, i: nat, group: (seq<string>, nat) -> Result<T>)
    requires i <= |lines| && Grouped(lines, i, group).Ok?
    ensures GroupShape(lines, i, group, Grouped(lines, i, group).value)
    decreases |lines| - i
  {
    if i + 3 < |lines| {
      GroupedStep(lines, i, group);
      GroupedShape(lines, i + 4, group);
      ShapeCons(lines, i, group, group(lines, i).value, Grouped(lines, i + 4, group).value);
    } else if i < |lines| {
      assert GroupShape(lines, i, group, Grouped(lines, i, group).value) by {
        assert Grouped(lines, i, group).value == [group(lines, i).value];
        assert i + 4 * 0 == i;
      }
    }
  }

  /** And anything of that shape reads back as its groups. */
  lemma {:induction false} ShapeGrouped<T>(lines: seq<string>, i: nat, group: (seq<string>, nat) -> Result<T>, xs: seq<T>)
    requires GroupShape(lines, i, group, xs)
    ensures Grouped(lines, i, group) == Ok(xs)
    decreases |lines| - i
  {
    if xs != [] {
      assert group(lines, i + 4 * 0) == Ok(xs[0]);
      if i + 3 < |lines| {
        ShapeTail(lines, i, group, xs);
        ShapeGrouped(lines, i + 4, group, xs[1..]);
        assert [xs[0]] + xs[1..] == xs;
      } else {
        assert |xs| == 1;
        assert xs == [xs[0]];
      }
    }
  }

  /** A read past three lines takes a group and an empty line, then reads on. */
  lemma GroupedStep<T>(lines: seq<string>, i: nat, group: (seq<string>, nat) -> Result<T>)
    requires i + 3 < |lines| && Grouped(lines, i, group).Ok?
    ensures group(lines, i).Ok? && lines[i + 3] == "" && Grouped(lines, i + 4, group).Ok?
    ensures Grouped(lines, i, group).value == [group(lines, i).value] + Grouped(lines, i + 4, group).value
  {
  }

  /** A group, an empty line and a shaped rest make a shaped whole. */
  lemma ShapeCons<T>(lines: seq<string>, i: nat, group: (seq<string>, nat) -> Result<T>, x: T, tail: seq<T>)
    requires group(lines, i) == Ok(x) && i + 3 < |lines| && lines[i + 3] == ""
    requires GroupShape(lines, i + 4, group, tail)
    ensures GroupShape(lines, i, group, [x] + tail)
  {
    var xs := [x] + tail;
    forall k | 0 <= k < |xs|
      ensures group(lines, i + 4 * k) == Ok(xs[k])
      ensures i + 4 * k + 3 < |lines| ==> lines[i + 4 * k + 3] == ""
    {
      if k > 0 {
        assert i + 4 * k == (i + 4) + 4 * (k - 1);
      }
    }
  }

  /** The rest of a shaped input past its first group and empty line is shaped. */
  lemma ShapeTail<T>(lines: seq<string>, i: nat, group: (seq<string>, nat) -> Result<T>, xs: seq<T>)
    requires GroupShape(lines, i, group, xs) && xs != [] && i + 3 < |lines|
    ensures group(lines, i) == Ok(xs[0]) && lines[i + 3] == ""
    ensures GroupShape(lines, i + 4, group, xs[1..])
  {
    assert i + 4 * 0 == i;
    var tail := xs[1..];
    forall k | 0 <= k < |tail|
      ensures group(lines, i + 4 + 4 * k) == Ok(tail[k])
      ensures i + 4 + 4 * k + 3 < |lines| ==> lines[i + 4 + 4 * k + 3] == ""
    {
      assert i + 4 + 4 * k == i + 4 * (k + 1);
    }
  }

  // ---------------------------------------------------------------- writing machines

  /** A coordinate: an optional space, the axis letter, the sign and the number. */
  function NumText(lead: string, what: char, sign: char, v: int): string
  {
    lead + [what, sign] + IntToString(v)
  }

  /** The two coordinates of a description, separated by a comma and a space. */
  function CoordsText(sign: char, p: Point): string
  {
    NumText("", 'X', sign, p.x) + [','] + NumText(" ", 'Y', sign, p.y)
  }

  /** A description line: `<prefix>: X<sign><x>, Y<sign><y>`. */
  function DefText(prefix: string, sign: char, p: Point): string
  {
    prefix + ": " + CoordsText(sign, p)
  }

  predicate InI32(p: Point)
  {
    I32_MIN <= p.x <= I32_MAX && I32_MIN <= p.y <= I32_MAX
  }

  /** Line `r` of a machine: the two buttons with `+`, then the prize with `=`. */
  function MachineLine(mc: Machine, r: nat): string
  {
    if r == 0 then DefText("Button A", '+', mc.a)
    else if r == 1 then DefText("Button B", '+', mc.b)
    else DefText("Prize", '=', mc.prize)
  }

  /** Three lines for each item, an empty line between two. */
  function Blocks<T>(xs: seq<T>, render: (T, nat) -> string): (lines: seq<string>)
    ensures |lines| == if xs == [] then 0 else 4 * |xs| - 1
  {
    if xs == [] then []
    else seq(4 * |xs| - 1, j requires 0 <= j < 4 * |xs| - 1 => (if j % 4 == 3 then "" else render(xs[j / 4], j % 4)))
  }

  /** The machines written out. */
  function MachinesText(ms: seq<Machine>): seq<string>
  {
    Blocks(ms, MachineLine)
  }

  /** Line `4k + r` of the blocks is line `r` of item `k`. */
  lemma BlocksAt<T>(xs: seq<T>, render: (T, nat) -> string, k: nat, r: nat)
    requires k < |xs| && r < 3
    ensures LineAt(Blocks(xs, render), 4 * k + r) == Some(render(xs[k], r))
  {
    DivMod4(k, r);
    var j := 4 * k + r;
    assert j < 4 * |xs| - 1;
    assert Blocks(xs, render)[j] == render(xs[j / 4], j % 4);
  }

  /** Line `4k + 3` of the blocks, if there is one, is empty. */
  lemma BlocksGap<T>(xs: seq<T>, render: (T, nat) -> string, k: nat)
    requires 4 * k + 3 < |Blocks(xs, render)|
    ensures Blocks(xs, render)[4 * k + 3] == ""
  {
    DivMod4(k, 3);
  }

  /** A number after the axis letter and sign parses back. */
  lemma ParseNumOf(lead: string, what: char, sign: char, v: int)
    requires I32_MIN <= v <= I32_MAX && (lead == "" || lead == " ")
    requires (what == 'X' || what == 'Y') && (sign == '+' || sign == '=')
    ensures ParseNum(lead + [what, sign] + IntToString(v), what) == Ok(v)
  {
    IntToStringChars(v);
    assert NumLead(lead, what, sign);
    NumLeadTrimmed(lead, what, sign, IntToString(v));
    ParseNumTrimmed(lead + [what, sign] + IntToString(v), what, v);
  }

  /** A text that trims down to the decimal form of `v` reads as `v`. */
  lemma ParseNumTrimmed(t: string, what: char, v: int)
    requires I32_MIN <= v <= I32_MAX
    requires TrimStartMatches(t, {what, ' ', '=', '+'}) == IntToString(v)
    ensures ParseNum(t, what) == Ok(v)
  {
    TrimOfIntToString(v);
    ParseIntOfIntToString(v, I32_MIN, I32_MAX);
    StrParseOk(IntToString(v), I32_MIN, I32_MAX, v);
  }

  /** What comes before a number in a description: an optional space, the axis letter and a sign. */
  predicate NumLead(lead: string, what: char, sign: char)
  {
    (lead == "" || lead == " ") && (what == 'X' || what == 'Y') && (sign == '+' || sign == '=')
  }

  /** The lead, axis letter and sign are trimmed away in front of a decimal form. */
  lemma NumLeadTrimmed(lead: string, what: char, sign: char, s: string)
    requires NumLead(lead, what, sign)
    requires |s| > 0 && (IsDigit(s[0]) || s[0] == '-')
    ensures TrimStartMatches(lead + [what, sign] + s, {what, ' ', '=', '+'}) == s
  {
    var run := lead + [what, sign];
    var cs := {what, ' ', '=', '+'};
    assert forall i :: 0 <= i < |run| ==> run[i] in cs by {
      if lead == " " { assert run == [' ', what, sign]; } else { assert run == [what, sign]; }
    }
    assert s[0] !in cs;
    TrimStartOf(run, s, cs);
  }

  /** A description line parses back to its point. */
  lemma ParseDefOf(prefix: string, sign: char, p: Point)
    requires InI32(p) && sign in {'+', '='}
    ensures ParseDef(Some(DefText(prefix, sign, p)), prefix) == Ok(p)
  {
    var l, zs := DefText(prefix, sign, p), CoordsText(sign, p);
    assert l[..|prefix|] == prefix && l[|prefix|..] == ": " + zs;
    CoordsShape(sign, p);
    CoordsTrim(zs);
    ParseNumOf("", 'X', sign, p.x);
    ParseNumOf(" ", 'Y', sign, p.y);
    ParseDefOfParts(l, prefix, NumText("", 'X', sign, p.x), NumText(" ", 'Y', sign, p.y), p);
  }

  /** The coordinates start with `X`, end in a digit, and the first holds no comma. */
  lemma CoordsShape(sign: char, p: Point)
    requires sign in {'+', '='}
    ensures var zs := CoordsText(sign, p); |zs| > 0 && zs[0] == 'X' && IsDigit(zs[|zs| - 1])
    ensures ',' !in NumText("", 'X', sign, p.x)
  {
    var xs, ys := NumText("", 'X', sign, p.x), NumText(" ", 'Y', sign, p.y);
    var zs := CoordsText(sign, p);
    IntToStringChars(p.x);
    IntToStringChars(p.y);
    var ny := IntToString(p.y);
    assert zs[|zs| - 1] == ys[|ys| - 1] == ny[|ny| - 1];
    assert xs == ['X', sign] + IntToString(p.x);
    forall i | 0 <= i < |xs| ensures xs[i] != ',' {
      if i >= 2 {
        assert xs[i] == IntToString(p.x)[i - 2];
      }
    }
  }

  /** The pieces of a description line that parse give its point. */
  lemma ParseDefOfParts(l: string, prefix: string, xs: string, ys: string, p: Point)
    requires |prefix| <= |l| && l[..|prefix|] == prefix
    requires Trim(TrimStartMatches(l[|prefix|..], {':'})) == xs + [','] + ys && ',' !in xs
    requires ParseNum(xs, 'X') == Ok(p.x) && ParseNum(ys, 'Y') == Ok(p.y)
    ensures ParseDef(Some(l), prefix) == Ok(p)
  {
    SplitOnceAt(xs, ',', ys);
  }

  /** The colon and space after the prefix are trimmed away, and nothing at the end. */
  lemma CoordsTrim(zs: string)
    requires |zs| > 0 && zs[0] == 'X' && IsDigit(zs[|zs| - 1])
    ensures Trim(TrimStartMatches(": " + zs, {':'})) == zs
  {
    ColonTrim(zs);
    TrimStartOf(" ", zs, Whitespace);
    DigitEndTrim(zs);
  }

  lemma ColonTrim(zs: string)
    requires |zs| > 0 && zs[0] == 'X'
    ensures TrimStartMatches(": " + zs, {':'}) == " " + zs
  {
    TrimStartOf(":", " " + zs, {':'});
    assert ":" + (" " + zs) == ": " + zs;
  }

  lemma DigitEndTrim(zs: string)
    requires |zs| > 0 && IsDigit(zs[|zs| - 1])
    ensures TrimEndMatches(zs, Whitespace) == zs
  {
  }

  predicate MachineInI32(mc: Machine)
  {
    InI32(mc.a) && InI32(mc.b) && InI32(mc.prize)
  }

  lemma DivMod4(k: nat, r: nat)
    requires r < 4
    ensures (4 * k + r) / 4 == k && (4 * k + r) % 4 == r
  {
  }

  /** Three description lines that parse make a machine. */
  lemma GroupOfLines(lines: seq<string>, i: nat, mc: Machine)
    requires LineAt(lines, i + 0) == Some(MachineLine(mc, 0))
    requires LineAt(lines, i + 1) == Some(MachineLine(mc, 1))
    requires LineAt(lines, i + 2) == Some(MachineLine(mc, 2))
    requires MachineInI32(mc)
    ensures GroupOf(lines, i) == Ok(mc)
  {
    ParseDefOf("Button A", '+', mc.a);
    ParseDefOf("Button B", '+', mc.b);
    ParseDefOf("Prize", '=', mc.prize);
  }

  /** A machine written out parses back. */
  lemma GroupOfText(ms: seq<Machine>, k: nat)
    requires k < |ms| && MachineInI32(ms[k])
    ensures GroupOf(MachinesText(ms), 4 * k) == Ok(ms[k])
  {
    BlocksAt(ms, MachineLine, k, 0);
    BlocksAt(ms, MachineLine, k, 1);
    BlocksAt(ms, MachineLine, k, 2);
    GroupOfLines(MachinesText(ms), 4 * k, ms[k]);
  }

  /** Machines written out parse back. */
  lemma MachinesOfText(ms: seq<Machine>)
    requires forall k :: 0 <= k < |ms| ==> MachineInI32(ms[k])
    ensures MachinesOf(MachinesText(ms)) == Ok(ms)
  {
    forall k | 0 <= k < |ms|
      ensures GroupOf(Blocks(ms, MachineLine), 4 * k) == Ok(ms[k])
    {
      GroupOfText(ms, k);
    }
    BlocksShape(ms, MachineLine, GroupOf);
    ShapeGrouped(Blocks(ms, MachineLine), 0, GroupOf, ms);
  }

  /** Blocks whose groups read back as their items have the shape of a read. */
  lemma BlocksShape<T>(xs: seq<T>, render: (T, nat) -> string, group: (seq<string>, nat) -> Result<T>)
    requires forall k :: 0 <= k < |xs| ==> group(Blocks(xs, render), 4 * k) == Ok(xs[k])
    ensures GroupShape(Blocks(xs, render), 0, group, xs)
  {
    var lines := Blocks(xs, render);
    forall k | 0 <= k < |xs| && 0 + 4 * k + 3 < |lines|
      ensures lines[0 + 4 * k + 3] == ""
    {
      BlocksGap(xs, render, k);
    }
    assert forall k :: 0 <= k < |xs| ==> group(lines, 0 + 4 * k) == Ok(xs[k]);
  }

  /** The input with a line per description reads back as the same machines. */
  lemma ParseMachinesRoundTrip(ms: seq<Machine>)
    requires forall k :: 0 <= k < |ms| ==> MachineInI32(ms[k])
    ensures MachinesOf(Lines(Unlines(MachinesText(ms)))) == Ok(ms)
  {
    var lines := MachinesText(ms);
    forall j | 0 <= j < |lines|
      ensures '\n' !in lines[j] && (|lines[j]| == 0 || lines[j][|lines[j]| - 1] != '\r')
    {
      if j % 4 != 3 {
        MachineLineShape(ms[j / 4], j % 4);
        assert lines[j] == MachineLine(ms[j / 4], j % 4);
      }
    }
    LinesOfUnlines(lines);
    MachinesOfText(ms);
  }

  /** Each line of a machine is free of line breaks and ends in a digit. */
  lemma MachineLineShape(mc: Machine, r: nat)
    ensures var line := MachineLine(mc, r); '\n' !in line && |line| > 0 && IsDigit(line[|line| - 1])
  {
    if r == 0 {
      DefTextLine("Button A", '+', mc.a);
    } else if r == 1 {
      DefTextLine("Button B", '+', mc.b);
    } else {
      DefTextLine("Prize", '=', mc.prize);
    }
  }

  lemma DefTextLine(prefix: string, sign: char, p: Point)
    requires '\n' !in prefix && sign in {'+', '='}
    ensures '\n' !in DefText(prefix, sign, p)
    ensures IsDigit(DefText(prefix, sign, p)[|DefText(prefix, sign, p)| - 1])
  {
    var zs := CoordsText(sign, p);
    CoordsShape(sign, p);
    NumTextNoBreak("", 'X', sign, p.x);
    NumTextNoBreak(" ", 'Y', sign, p.y);
    assert '\n' !in zs;
    var l := DefText(prefix, sign, p);
    assert l[|l| - 1] == zs[|zs| - 1];
  }

  lemma NumTextNoBreak(lead: string, what: char, sign: char, v: int)
    requires '\n' !in lead && what != '\n' && sign != '\n'
    ensures '\n' !in NumText(lead, what, sign, v)
  {
    IntToStringChars(v);
    assert '\n' !in IntToString(v);
  }
}

/**
 * Day 7: calibration equations. A line `l: r0 r1 ... rn` holds when some choice of
 * operators between the operands, evaluated left to right, gives `l`. Part one allows
 * `+` and `*`, chosen by the bits of a counter; part two adds digit concatenation,
 * chosen by a base-3 odometer.
 */
module Day07 {
  import opened Wrappers
  import opened Text
  import opened Bits
  import opened Decimal

  /** A line of the input: the test value and its operands, as `i64`. */
  datatype Line = Line(l: int, r: seq<int>)

  // ---------------------------------------------------------------- concatenation

  /** `successors(Some(1i64), checked_mul(10))` ends after `10^18`: the last power of ten in `i64`. */
  const CONCAT_LIMIT: nat := 1_000_000_000_000_000_000

  /** The first power of ten from `10^k` on that is greater than `r`. */
  function PowerAbove(r: int, k: nat): (m: nat)
    requires r < CONCAT_LIMIT && k <= 18
    decreases 18 - k
  {
    if Pow10(k) > r then Pow10(k)
    else
      Pow10Of18();
      PowerAbove(r, k + 1)
  }

  /**
   * `concat`: `l * m + r` for the least power of ten `m` greater than `r`; the search
   * unwraps `None`, a panic, when `r` is `10^18` or more.
   */
  function Concat(l: int, r: int): int
    requires r < CONCAT_LIMIT
  {
    l * PowerAbove(r, 0) + r
  }

  /** The power found for a positive `r` is `10` to its number of digits. */
  lemma {:induction false} PowerAboveDigits(r: nat, k: nat)
    requires 1 <= r < CONCAT_LIMIT && k <= 18 && k <= Digits(r)
    ensures PowerAbove(r, k) == Pow10(Digits(r))
    decreases 18 - k
  {
    DigitsBounds(r);
    if k < Digits(r) {
      if r >= 10 {
        Pow10Monotone(k, Digits(r) - 1);
      }
      Pow10Of18();
      PowerAboveDigits(r, k + 1);
    }
  }

  /** For positive operands, `concat` writes the digits of `l` and then those of `r`. */
  lemma ConcatDigits(l: nat, r: nat)
    requires l >= 1 && 1 <= r < CONCAT_LIMIT
    ensures Concat(l, r) >= 0 && NatToString(Concat(l, r)) == NatToString(l) + NatToString(r)
  {
    PowerAboveDigits(r, 0);
    NatToStringConcat(l, r);
  }

  /** A zero right operand leaves `l` as it is, since 1 is already greater than 0. */
  lemma ConcatZero(l: int)
    ensures Concat(l, 0) == l
  {
  }

  // ---------------------------------------------------------------- operators

  /** Operator code 0 is `+`, 1 is `*` and 2 is concatenation. */
  function ApplyOp(op: nat, acc: int, x: int): int
    requires op < 3 && (op == 2 ==> x < CONCAT_LIMIT)
  {
    if op == 0 then acc + x else if op == 1 then acc * x else Concat(acc, x)
  }

  /** Codes that the concatenation can take for operands `xs`. */
  predicate Allowed(xs: seq<int>, ops: seq<nat>)
  {
    |ops| == |xs| && forall i :: 0 <= i < |ops| ==> ops[i] < 3 && (ops[i] == 2 ==> xs[i] < CONCAT_LIMIT)
  }

  /** The operands folded left to right from `acc`, operator `ops[i]` before operand `xs[i]`. */
  function Fold(acc: int, xs: seq<int>, ops: seq<nat>): int
    requires Allowed(xs, ops)
    decreases |xs|
  {
    if xs == [] then acc else Fold(ApplyOp(ops[0], acc, xs[0]), xs[1..], ops[1..])
  }

  /** Some choice of `+` and `*` between the operands gives the test value. */
  ghost predicate AddMulSolvable(line: Line)
    requires |line.r| >= 1
  {
    exists ops: seq<nat> :: |ops| == |line.r| - 1 && (forall i :: 0 <= i < |ops| ==> ops[i] < 2)
      && Fold(line.r[0], line.r[1..], ops) == line.l
  }

  /** Some choice of `+`, `*` and concatenation between the operands gives the test value. */
  ghost predicate AddMulConcatSolvable(line: Line)
    requires |line.r| >= 1 && forall i :: 1 <= i < |line.r| ==> line.r[i] < CONCAT_LIMIT
  {
    exists ops: seq<nat> :: |ops| == |line.r| - 1 && (forall i :: 0 <= i < |ops| ==> ops[i] < 3)
      && Fold(line.r[0], line.r[1..], ops) == line.l
  }

  /** Every line that part one accepts, part two accepts too: codes 0 and 1 mean the same. */
  lemma AddMulImpliesConcat(line: Line)
    requires |line.r| >= 1 && forall i :: 1 <= i < |line.r| ==> line.r[i] < CONCAT_LIMIT
    ensures AddMulSolvable(line) ==> AddMulConcatSolvable(line)
  {
    if AddMulSolvable(line) {
      var ops: seq<nat> :| |ops| == |line.r| - 1 && (forall i :: 0 <= i < |ops| ==> ops[i] < 2)
        && Fold(line.r[0], line.r[1..], ops) == line.l;
      assert forall i :: 0 <= i < |ops| ==> ops[i] < 3;
    }
  }

  // ---------------------------------------------------------------- part one: a bit counter

  /** The fold of `is_add_mul`: bit 0 of `ops` picks the operator, then `ops` shifts right. */
  function FoldMask(v: int, xs: seq<int>, ops: nat): int
    decreases |xs|
  {
    if xs == [] then v
    else
      var vv := if ops % 2 == 0 then v + xs[0] else v * xs[0];
      FoldMask(vv, xs[1..], ops / 2)
  }

  /** The low `n` bits of `mask` as operator codes, lowest first. */
  function MaskOps(mask: nat, n: nat): (ops: seq<nat>)
    ensures |ops| == n && forall i :: 0 <= i < n ==> ops[i] < 2
  {
    if n == 0 then [] else [mask % 2] + MaskOps(mask / 2, n - 1)
  }

  /** The counter whose low bits are the codes `ops`. */
  function Mask(ops: seq<nat>): nat
  {
    if ops == [] then 0 else ops[0] % 2 + 2 * Mask(ops[1..])
  }

  /** Folding with the bits of `mask` is folding with the codes it stands for. */
  lemma {:induction false} FoldMaskIsFold(v: int, xs: seq<int>, mask: nat)
    ensures FoldMask(v, xs, mask) == Fold(v, xs, MaskOps(mask, |xs|))
    decreases |xs|
  {
    if xs != [] {
      var ops := MaskOps(mask, |xs|);
      assert ops[1..] == MaskOps(mask / 2, |xs| - 1);
      FoldMaskIsFold(if mask % 2 == 0 then v + xs[0] else v * xs[0], xs[1..], mask / 2);
    }
  }

  /** Every choice of `n` binary codes is the low bits of a counter below `2^n`. */
  lemma {:induction false} MaskRoundTrip(ops: seq<nat>)
    requires forall i :: 0 <= i < |ops| ==> ops[i] < 2
    ensures Mask(ops) < Pow2(|ops|) && MaskOps(Mask(ops), |ops|) == ops
  {
    if ops != [] {
      MaskRoundTrip(ops[1..]);
      var m := Mask(ops);
      assert m % 2 == ops[0] && m / 2 == Mask(ops[1..]);
    }
  }

  /** The lines `is_add_mul` accepts: the operators come from `0..1 << n_ops` on `i32`. */
  method IsAddMul(line: Line) returns (b: bool)
    requires 1 <= |line.r| <= 32
    ensures b <==> |line.r| - 1 < 31 && AddMulSolvable(line)
  {
    var nOps := |line.r| - 1;
    // `1i32 << 31` is `i32::MIN`, so the range `0..i32::MIN` is empty.
    var limit := if nOps == 31 then 0 else Pow2(nOps);
    for ops := 0 to limit
      invariant forall m :: 0 <= m < ops ==> FoldMask(line.r[0], line.r[1..], m) != line.l
    {
      var ok := line.l == FoldMask(line.r[0], line.r[1..], ops);
      if ok {
        FoldMaskIsFold(line.r[0], line.r[1..], ops);
        return true;
      }
    }
    if nOps < 31 && AddMulSolvable(line) {
      var w: seq<nat> :| |w| == nOps && (forall i :: 0 <= i < |w| ==> w[i] < 2)
        && Fold(line.r[0], line.r[1..], w) == line.l;
      MaskRoundTrip(w);
      FoldMaskIsFold(line.r[0], line.r[1..], Mask(w));
      assert false;
    }
    return false;
  }

  // ---------------------------------------------------------------- part two: a base-3 odometer

  function Pow3(k: nat): (r: nat)
    ensures r >= 1
  {
    if k == 0 then 1 else 3 * Pow3(k - 1)
  }

  predicate Ternary(s: seq<nat>) { forall i :: 0 <= i < |s| ==> s[i] < 3 }

  /** The odometer reading: digit `i` counts `3^i`. */
  function Val(s: seq<nat>): nat
  {
    if s == [] then 0 else s[0] + 3 * Val(s[1..])
  }

  /** A reading of `n` ternary digits is below `3^n`. */
  lemma {:induction false} ValBound(s: seq<nat>)
    requires Ternary(s)
    ensures Val(s) < Pow3(|s|)
  {
    if s != [] {
      ValBound(s[1..]);
    }
  }

  /** Two readings of the same length are equal only for equal digits. */
  lemma {:induction false} ValInjective(s: seq<nat>, t: seq<nat>)
    requires Ternary(s) && Ternary(t) && |s| == |t| && Val(s) == Val(t)
    ensures s == t
  {
    if s != [] {
      assert s[0] == Val(s) % 3 && t[0] == Val(t) % 3;
      ValInjective(s[1..], t[1..]);
      assert s == [s[0]] + s[1..] && t == [t[0]] + t[1..];
    }
  }

  /** All digits at 2: the last reading before the odometer overflows. */
  lemma {:induction false} ValAllTwos(s: seq<nat>)
    requires forall i :: 0 <= i < |s| ==> s[i] == 2
    ensures Val(s) == Pow3(|s|) - 1
  {
    if s != [] {
      ValAllTwos(s[1..]);
    }
  }

  /** Zeroing the 2s below position `i` and raising digit `i` adds one to the reading. */
  lemma {:induction false} ValIncrement(s: seq<nat>, t: seq<nat>, i: nat)
    requires i < |s| == |t| && s[i] < 2 && t[i] == s[i] + 1
    requires forall k :: 0 <= k < i ==> s[k] == 2 && t[k] == 0
    requires forall k :: i < k < |s| ==> t[k] == s[k]
    ensures Val(t) == Val(s) + 1
  {
    if i == 0 {
      assert t[1..] == s[1..];
    } else {
      ValIncrement(s[1..], t[1..], i - 1);
    }
  }

  /**
   * The carry loop of `is_add_mul_concat`: digits at 2 roll over to 0 until one can be
   * raised. Without a carry the reading grows by one; with a carry out, every digit was 2.
   */
  method Advance(ops: array<nat>) returns (carry: nat)
    requires Ternary(ops[..])
    modifies ops
    ensures Ternary(ops[..])
    ensures carry == 0 ==> Val(ops[..]) == Val(old(ops[..])) + 1
    ensures carry != 0 ==> forall k :: 0 <= k < ops.Length ==> old(ops[k]) == 2
  {
    carry := 1;
    var i := 0;
    while i < ops.Length
      invariant 0 <= i <= ops.Length && carry == 1
      invariant forall k :: 0 <= k < i ==> old(ops[k]) == 2 && ops[k] == 0
      invariant forall k :: i <= k < ops.Length ==> ops[k] == old(ops[k])
    {
      var v := ops[i] + carry;
      if v < 3 {
        ops[i] := v;
        carry := 0;
        ValIncrement(old(ops[..]), ops[..], i);
        break;
      } else {
        ops[i] := 0;
        carry := v - 2;
      }
      i := i + 1;
    }
  }

  /** Every reading below `v` was tried and missed the test value. */
  ghost predicate Tried(line: Line, v: nat)
    requires |line.r| >= 1 && forall i :: 1 <= i < |line.r| ==> line.r[i] < CONCAT_LIMIT
  {
    forall s: seq<nat> :: |s| == |line.r| - 1 && Ternary(s) && Val(s) < v ==>
      Fold(line.r[0], line.r[1..], s) != line.l
  }

  /**
   * `is_add_mul_concat`: count through every choice of the three operators until one
   * gives the test value. The operators live in a 64-byte buffer, and `concat` panics on an
   * operand of `10^18` or more.
   */
  method IsAddMulConcat(line: Line) returns (b: bool)
    requires 1 <= |line.r| <= 65
    requires forall i :: 1 <= i < |line.r| ==> line.r[i] < CONCAT_LIMIT
    ensures b <==> AddMulConcatSolvable(line)
  {
    var nOps := |line.r| - 1;
    var ops := new nat[nOps](_ => 0);
    assert Val(ops[..]) == 0 by {
      ZerosVal(ops[..]);
    }
    while true
      invariant Ternary(ops[..]) && Tried(line, Val(ops[..]))
      decreases Pow3(nOps) - Val(ops[..])
    {
      var value := Fold(line.r[0], line.r[1..], ops[..]);
      if value == line.l {
        return true;
      }
      TriedNext(line, ops[..]);
      ValBound(ops[..]);
      ghost var before := ops[..];
      var carry := Advance(ops);
      if carry != 0 {
        ValAllTwos(before);
        TriedAll(line, Val(before) + 1);
        return false;
      }
    }
  }

  lemma {:induction false} ZerosVal(s: seq<nat>)
    requires forall i :: 0 <= i < |s| ==> s[i] == 0
    ensures Val(s) == 0
  {
    if s != [] {
      ZerosVal(s[1..]);
    }
  }

  /** A reading that missed extends the tried readings by one. */
  lemma TriedNext(line: Line, s: seq<nat>)
    requires |line.r| >= 1 && forall i :: 1 <= i < |line.r| ==> line.r[i] < CONCAT_LIMIT
    requires |s| == |line.r| - 1 && Ternary(s) && Tried(line, Val(s))
    requires Fold(line.r[0], line.r[1..], s) != line.l
    ensures Tried(line, Val(s) + 1)
  {
    forall t: seq<nat> | |t| == |line.r| - 1 && Ternary(t) && Val(t) < Val(s) + 1
      ensures Fold(line.r[0], line.r[1..], t) != line.l
    {
      if Val(t) == Val(s) {
        ValInjective(s, t);
      }
    }
  }

  /** Once `3^n` readings were tried, no choice of operators is left. */
  lemma TriedAll(line: Line, v: nat)
    requires |line.r| >= 1 && forall i :: 1 <= i < |line.r| ==> line.r[i] < CONCAT_LIMIT
    requires v == Pow3(|line.r| - 1) && Tried(line, v)
    ensures !AddMulConcatSolvable(line)
  {
    forall s: seq<nat> | |s| == |line.r| - 1 && Ternary(s)
      ensures Fold(line.r[0], line.r[1..], s) != line.l
    {
      ValBound(s);
    }
  }

  // ---------------------------------------------------------------- input

  /** `Line::parse`: `l: r0 r1 ...`, every number an `i64`. */
  function ParseLine(line: string): (r: Result<Line>)
    ensures r.Ok? ==> ':' in line
    ensures SplitOnce(line, ':').None? ==> r == Err("missing ':' in line " + line)
    ensures r.Ok? <==>
      SplitOnce(line, ':').Some? && ParseInt(SplitOnce(line, ':').value.0, I64_MIN, I64_MAX).Some? &&
      ParseOperands(Words(SplitOnce(line, ':').value.1)).Ok?
    ensures r.Ok? ==>
      r.value == Line(ParseInt(SplitOnce(line, ':').value.0, I64_MIN, I64_MAX).value,
                      ParseOperands(Words(SplitOnce(line, ':').value.1)).value)
  {
    match SplitOnce(line, ':')
    case None => Err("missing ':' in line " + line)
    case Some((l, rest)) =>
      match ParseInt(l, I64_MIN, I64_MAX)
      case None => Err(IntErrorMessage(IntErrorOf(l, I64_MIN, I64_MAX)))
      case Some(lv) =>
        match ParseOperands(Words(rest))
        case Err(e) => Err(e)
        case Ok(rs) => Ok(Line(lv, rs))
  }

  /** Every word as an `i64`; the first that is not one is the error. */
  function ParseOperands(ws: seq<string>): (r: Result<seq<int>>)
    ensures r.Ok? <==> forall i :: 0 <= i < |ws| ==> ParseInt(ws[i], I64_MIN, I64_MAX).Some?
    ensures r.Ok? ==> |r.value| == |ws|
    ensures r.Ok? ==> forall i :: 0 <= i < |ws| ==> r.value[i] == ParseInt(ws[i], I64_MIN, I64_MAX).value
  {
    if ws == [] then Ok([])
    else
      match ParseOperands(ws[..|ws| - 1])
      case Err(e) => Err(e)
      case Ok(init) =>
        match ParseInt(ws[|ws| - 1], I64_MIN, I64_MAX)
        case None => Err(IntErrorMessage(IntErrorOf(ws[|ws| - 1], I64_MIN, I64_MAX)))
        case Some(v) =>
          assert forall i :: 0 <= i < |ws| - 1 ==> ws[..|ws| - 1][i] == ws[i];
          Ok(init + [v])
  }

  /** `parse_data`: one line per input line, in order; the first bad line is the error. */
  function ParseData(input: string): (r: Result<seq<Line>>)
    ensures r.Ok? <==> AllLinesParse(Lines(input))
    ensures r.Ok? ==> |r.value| == |Lines(input)|
    ensures r.Ok? ==> forall i :: 0 <= i < |r.value| ==> r.value[i] == ParseLine(Lines(input)[i]).value
  {
    ParseLines(Lines(input))
  }

  /** Every line is a well-formed equation line. */
  predicate AllLinesParse(ls: seq<string>)
  {
    forall i :: 0 <= i < |ls| ==> ParseLine(ls[i]).Ok?
  }

  /** Every line as a `Line`, in order, or the error of the first that is not one. */
  function ParseLines(ls: seq<string>): (r: Result<seq<Line>>)
    ensures r.Ok? <==> AllLinesParse(ls)
    ensures r.Ok? ==> |r.value| == |ls| && forall i :: 0 <= i < |ls| ==> r.value[i] == ParseLine(ls[i]).value
  {
    CollectAll(ls, ParseLine)
  }

  /** The text of a line: the test value, a colon and a space, and the operands between single spaces. */
  function LineText(line: Line): string
  {
    IntToString(line.l) + ": " + Join(seq(|line.r|, i requires 0 <= i < |line.r| => IntToString(line.r[i])), " ")
  }

  /** A line whose numbers are `i64` parses back from its text. */
  lemma ParseLineRoundTrip(line: Line)
    requires I64_MIN <= line.l <= I64_MAX
    requires forall i :: 0 <= i < |line.r| ==> I64_MIN <= line.r[i] <= I64_MAX
    ensures ParseLine(LineText(line)) == Ok(line)
  {
    var head := IntToString(line.l);
    var ws := seq(|line.r|, i requires 0 <= i < |line.r| => IntToString(line.r[i]));
    var rest := " " + Join(ws, " ");
    IntToStringShape(line.l);
    assert LineText(line) == head + [':'] + rest;
    SplitOnceAt(head, ':', rest);
    ParseIntOfIntToString(line.l, I64_MIN, I64_MAX);
    OperandsText(line.r, ws);
    ParseLineOf(LineText(line), head, rest, line);
  }

  /** The pieces of a line that parse give the line. */
  lemma ParseLineOf(text: string, head: string, rest: string, line: Line)
    requires SplitOnce(text, ':') == Some((head, rest))
    requires ParseInt(head, I64_MIN, I64_MAX) == Some(line.l)
    requires ParseOperands(Words(rest)) == Ok(line.r)
    ensures ParseLine(text) == Ok(line)
  {
  }

  /** The operands after the colon split into their decimal forms and parse back. */
  lemma OperandsText(vs: seq<int>, ws: seq<string>)
    requires forall i :: 0 <= i < |vs| ==> I64_MIN <= vs[i] <= I64_MAX
    requires |ws| == |vs| && forall i :: 0 <= i < |ws| ==> ws[i] == IntToString(vs[i])
    ensures ParseOperands(Words(" " + Join(ws, " "))) == Ok(vs)
  {
    var rest := " " + Join(ws, " ");
    forall i | 0 <= i < |ws| ensures IsWord(ws[i]) {
      IntToStringShape(vs[i]);
    }
    WordsSkipsSpace(rest);
    assert rest[1..] == Join(ws, " ");
    WordsOfJoin(ws);
    ParseOperandsOfInts(vs, ws);
  }

  lemma ParseOperandsOfInts(vs: seq<int>, ws: seq<string>)
    requires forall i :: 0 <= i < |vs| ==> I64_MIN <= vs[i] <= I64_MAX
    requires |ws| == |vs| && forall i :: 0 <= i < |ws| ==> ws[i] == IntToString(vs[i])
    ensures ParseOperands(ws) == Ok(vs)
  {
    forall i | 0 <= i < |ws| ensures ParseInt(ws[i], I64_MIN, I64_MAX) == Some(vs[i]) {
      ParseIntOfIntToString(vs[i], I64_MIN, I64_MAX);
    }
    var rs := ParseOperands(ws).value;
    assert forall i :: 0 <= i < |rs| ==> rs[i] == vs[i];
    assert rs == vs;
  }

  /** Decimal forms are words made of a sign and digits, so they hold no colon. */
  lemma IntToStringShape(v: int)
    ensures ':' !in IntToString(v) && IsWord(IntToString(v))
  {
    var digits := NatToString(if v < 0 then -v else v);
    DigitsNoSpace(digits);
    if v < 0 {
      assert IntToString(v) == "-" + digits;
      assert IntToString(v)[1..] == digits;
    }
  }
}

/**
 * Day 17: a three-bit computer. A program is a list of numbers read two at a
 * time, an opcode and an operand; registers A, B and C are `u64`. Part one runs
 * the program and prints what it outputs; part two searches for a value of A
 * that makes the program output itself.
 *
 * A run that does not stop is given a fuel bound, and a run that would panic
 * (a shift by 64 or more) ends the run with no result.
 */
module Day17 {
  import opened Wrappers
  import opened Text
  import opened Bits

  /** An instruction and its operand. */
  datatype Op = Adv(x: nat) | Bxl(x: nat) | Bst(x: nat) | Jnz(x: nat) | Bxc | Out(x: nat) | Bdv(x: nat) | Cdv(x: nat)

  /** `CpuState` as a value: the instruction pointer and the three registers. */
  datatype State = State(ip: nat, a: nat, b: nat, c: nat)

  /** Every register holds a `u64`. */
  predicate Registers(s: State) { s.a < U64_LIMIT && s.b < U64_LIMIT && s.c < U64_LIMIT }

  /** Every number of the program is a `u8`. */
  predicate IsProgram(prog: seq<nat>) { forall i :: 0 <= i < |prog| ==> prog[i] < U8_LIMIT }

  /** `CpuState::new_a`: register A set, everything else zero. */
  function NewA(a: nat): (r: State)
    ensures r.ip == 0 && r.b == 0 && r.c == 0 && (a < U64_LIMIT ==> Registers(r))
  {
    State(0, a, 0, 0)
  }

  /** The opcode an instruction is written with. */
  function Opcode(op: Op): nat
  {
    match op
    case Adv(_) => 0
    case Bxl(_) => 1
    case Bst(_) => 2
    case Jnz(_) => 3
    case Bxc => 4
    case Out(_) => 5
    case Bdv(_) => 6
    case Cdv(_) => 7
  }

  /**
   * `CpuState::op`: the instruction at `ip`. There is none when fewer than two
   * numbers are left there, or when the opcode is above 7.
   */
  function Decode(prog: seq<nat>, ip: nat): (r: Option<Op>)
    ensures r.None? <==> |prog| < ip + 2 || prog[ip] > 7
    ensures r.Some? ==> Opcode(r.value) == prog[ip] && (r.value.Bxc? || r.value.x == prog[ip + 1])
  {
    if |prog| < ip + 2 then None
    else
      var v := prog[ip + 1];
      match prog[ip]
      case 0 => Some(Adv(v))
      case 1 => Some(Bxl(v))
      case 2 => Some(Bst(v))
      case 3 => Some(Jnz(v))
      case 4 => Some(Bxc)
      case 5 => Some(Out(v))
      case 6 => Some(Bdv(v))
      case 7 => Some(Cdv(v))
      case _ => None
  }

  /** `CpuState::combo`: 0 to 3 stand for themselves, 4, 5 and 6 for A, B and C, the rest for 0. */
  function Combo(s: State, v: nat): (r: nat)
    ensures v < 4 ==> r == v
    ensures v == 4 ==> r == s.a
    ensures v == 5 ==> r == s.b
    ensures v == 6 ==> r == s.c
    ensures v > 6 ==> r == 0
    ensures Registers(s) ==> r < U64_LIMIT
  {
    if v < 4 then v else if v == 4 then s.a else if v == 5 then s.b else if v == 6 then s.c else 0
  }

  /** The divisions are right shifts, and a `u64` shift by 64 or more panics. */
  predicate Panics(s: State, op: Op)
  {
    (op.Adv? || op.Bdv? || op.Cdv?) && Combo(s, op.x) >= 64
  }

  /** `CpuState::exec` on values: the next state and the output, if any. */
  function Step(s: State, op: Op): (r: (State, Option<nat>))
    requires !Panics(s, op)
    ensures r.0.ip == if op.Jnz? && s.a != 0 then op.x else s.ip + 2
    ensures r.1.Some? <==> op.Out?
    ensures op.Out? ==> r.1.value == Combo(s, op.x) % 8
    ensures op.Bst? ==> r.0.b == Combo(s, op.x) % 8
    ensures !op.Adv? ==> r.0.a == s.a
    ensures !(op.Bxl? || op.Bst? || op.Bxc? || op.Bdv?) ==> r.0.b == s.b
    ensures !op.Cdv? ==> r.0.c == s.c
  {
    assert Pow2(3) == 8;
    match op
    case Adv(x) => (s.(a := Shr(s.a, Combo(s, x)), ip := s.ip + 2), None)
    case Bxl(x) => (s.(b := Xor(s.b, x), ip := s.ip + 2), None)
    case Bst(x) =>
      AndLowMask(Combo(s, x), 3);
      (s.(b := And(Combo(s, x), 7), ip := s.ip + 2), None)
    case Jnz(x) => (if s.a != 0 then s.(ip := x) else s.(ip := s.ip + 2), None)
    case Bxc => (s.(b := Xor(s.b, s.c), ip := s.ip + 2), None)
    case Out(x) =>
      AndLowMask(Combo(s, x), 3);
      (s.(ip := s.ip + 2), Some(And(Combo(s, x), 7)))
    case Bdv(x) => (s.(b := Shr(s.a, Combo(s, x)), ip := s.ip + 2), None)
    case Cdv(x) => (s.(c := Shr(s.a, Combo(s, x)), ip := s.ip + 2), None)
  }

  /** The registers stay `u64` values: shifts only shrink them, and `^` of two `u64` values is one. */
  lemma StepRegisters(s: State, op: Op)
    requires !Panics(s, op) && Registers(s) && (op.Bxl? ==> op.x < U64_LIMIT)
    ensures Registers(Step(s, op).0)
  {
    Pow2Value64();
    var s' := Step(s, op).0;
    match op
    case Bxl(x) => XorBound(s.b, x, 64);
    case Bxc => XorBound(s.b, s.c, 64);
    case Bst(x) =>
    case Out(x) =>
    case Jnz(x) =>
    case Adv(x) => ShrBound(s.a, Combo(s, x));
    case Bdv(x) => ShrBound(s.a, Combo(s, x));
    case Cdv(x) => ShrBound(s.a, Combo(s, x));
  }

  // ---------------------------------------------------------------- whole runs

  /** How a run ends: halted with its outputs, panicked, or still going when the fuel ran out. */
  datatype Outcome = Halted(outs: seq<nat>) | Panicked | OutOfFuel

  function Emit(o: Option<nat>): seq<nat> { if o.Some? then [o.value] else [] }

  /** Outputs that come before the rest of a run. */
  function Prepend(xs: seq<nat>, o: Outcome): Outcome
  {
    if o.Halted? then Halted(xs + o.outs) else o
  }

  /** Running `prog` from `s`, executing at most `fuel` instructions; every output is an octal digit. */
  function Run(prog: seq<nat>, s: State, fuel: nat): (r: Outcome)
    ensures r.Halted? ==> OctalDigits(r.outs)
    decreases fuel
  {
    match Decode(prog, s.ip)
    case None => Halted([])
    case Some(op) =>
      if fuel == 0 then OutOfFuel
      else if Panics(s, op) then Panicked
      else
        var (s', o) := Step(s, op);
        assert OctalDigits(Emit(o));
        Prepend(Emit(o), Run(prog, s', fuel - 1))
  }

  /** More fuel does not change a run that ended. */
  lemma {:induction false} RunFuel(prog: seq<nat>, s: State, fuel: nat, more: nat)
    requires Run(prog, s, fuel) != OutOfFuel && fuel <= more
    ensures Run(prog, s, more) == Run(prog, s, fuel)
    decreases fuel
  {
    match Decode(prog, s.ip)
    case None =>
    case Some(op) =>
      if !Panics(s, op) {
        var (s', o) := Step(s, op);
        assert Run(prog, s', fuel - 1) != OutOfFuel;
        RunFuel(prog, s', fuel - 1, more - 1);
      }
  }

  // ---------------------------------------------------------------- the computer

  /** `CpuState`, updated in place by `exec`. */
  class Cpu {
    var ip: nat
    var a: nat
    var b: nat
    var c: nat

    function Regs(): State
      reads this
    {
      State(ip, a, b, c)
    }

    constructor (s: State)
      ensures Regs() == s
    {
      ip, a, b, c := s.ip, s.a, s.b, s.c;
    }

    /** `CpuState::exec`: one instruction changes the registers and may output a digit. */
    method Exec(op: Op) returns (out: Option<nat>)
      requires !Panics(Regs(), op)
      modifies this
      ensures (Regs(), out) == Step(old(Regs()), op)
    {
      var s := Regs();
      out := None;
      match op
      case Adv(x) =>
        a := Shr(a, Combo(s, x));
        ip := ip + 2;
      case Bxl(x) =>
        b := Xor(b, x);
        ip := ip + 2;
      case Bst(x) =>
        b := And(Combo(s, x), 7);
        ip := ip + 2;
      case Jnz(x) =>
        if a != 0 {
          ip := x;
        } else {
          ip := ip + 2;
        }
      case Bxc =>
        b := Xor(b, c);
        ip := ip + 2;
      case Out(x) =>
        ip := ip + 2;
        out := Some(And(Combo(s, x), 7));
      case Bdv(x) =>
        b := Shr(a, Combo(s, x));
        ip := ip + 2;
      case Cdv(x) =>
        c := Shr(a, Combo(s, x));
        ip := ip + 2;
    }

    /**
     * One turn of the `while let Some(op) = cpu.op(prog)` loop, with `k` instructions
     * left to spare: not ok when the fuel is spent or the instruction panics.
     */
    method Cycle(prog: seq<nat>, ghost s0: State, ghost fuel: nat, ghost seen: seq<nat>, k: nat) returns (ok: bool, out: Option<nat>)
      requires Decode(prog, ip).Some? && Tail(prog, s0, fuel, seen, Regs(), k)
      modifies this
      ensures !ok ==> !Run(prog, s0, fuel).Halted?
      ensures ok ==> k > 0 && Tail(prog, s0, fuel, seen + Emit(out), Regs(), k - 1)
    {
      var op := Decode(prog, ip).value;
      if k == 0 || Panics(Regs(), op) {
        RunStops(prog, Regs(), k, op);
        return false, None;
      }
      ghost var before := Regs();
      out := Exec(op);
      RunStep(prog, s0, fuel, seen, before, k, op, Regs(), out);
      ok := true;
    }
  }

  /** A run from `s0` has output `seen` so far and goes on as a run from `s` with `k` instructions to spare. */
  ghost predicate Tail(prog: seq<nat>, s0: State, fuel: nat, seen: seq<nat>, s: State, k: nat)
  {
    Run(prog, s0, fuel) == Prepend(seen, Run(prog, s, k))
  }

  /** One more instruction of a run, seen from the run as a whole. */
  lemma RunStep(prog: seq<nat>, s0: State, fuel: nat, seen: seq<nat>, s: State, k: nat, op: Op, s': State, o: Option<nat>)
    requires Tail(prog, s0, fuel, seen, s, k)
    requires Decode(prog, s.ip) == Some(op) && k > 0 && !Panics(s, op) && (s', o) == Step(s, op)
    ensures Tail(prog, s0, fuel, seen + Emit(o), s', k - 1)
  {
    var rest := Run(prog, s', k - 1);
    if rest.Halted? {
      assert seen + (Emit(o) + rest.outs) == (seen + Emit(o)) + rest.outs;
    }
  }

  /** A run stops without halting when the fuel is spent or the next instruction panics. */
  lemma RunStops(prog: seq<nat>, s: State, k: nat, op: Op)
    requires Decode(prog, s.ip) == Some(op) && (k == 0 || Panics(s, op))
    ensures !Run(prog, s, k).Halted?
  {
  }

  /** A run halts when no instruction is left, with what it has output so far. */
  lemma RunEnds(prog: seq<nat>, s0: State, fuel: nat, seen: seq<nat>, s: State, k: nat)
    requires Tail(prog, s0, fuel, seen, s, k)
    requires Decode(prog, s.ip).None?
    ensures Run(prog, s0, fuel) == Halted(seen)
  {
    assert seen + [] == seen;
  }

  // ---------------------------------------------------------------- part one

  /** The outputs as `run1` prints them: digits joined by commas. */
  function Render(outs: seq<nat>): string
  {
    Join(seq(|outs|, i requires 0 <= i < |outs| => NatToString(outs[i])), ",")
  }

  lemma RenderSnoc(outs: seq<nat>, d: nat)
    ensures Render(outs + [d]) == if outs == [] then NatToString(d) else Render(outs) + "," + NatToString(d)
  {
    var ws := seq(|outs|, i requires 0 <= i < |outs| => NatToString(outs[i]));
    assert seq(|outs + [d]|, i requires 0 <= i < |outs + [d]| => NatToString((outs + [d])[i])) == ws + [NatToString(d)];
    if outs != [] {
      JoinSnoc(ws, NatToString(d), ",");
    }
  }

  lemma RenderEmpty(outs: seq<nat>)
    ensures Render(outs) == "" <==> outs == []
  {
    if outs != [] {
      RenderSnoc(outs[..|outs| - 1], outs[|outs| - 1]);
      assert outs[..|outs| - 1] + [outs[|outs| - 1]] == outs;
    }
  }

  /**
   * `run1`: run the program from `s` and print its outputs; none when the run
   * panics or takes more than `fuel` instructions.
   */
  method Run1(s: State, prog: seq<nat>, fuel: nat) returns (r: Option<string>)
    ensures r.Some? <==> Run(prog, s, fuel).Halted?
    ensures r.Some? ==> r.value == Render(Run(prog, s, fuel).outs)
  {
    var cpu := new Cpu(s);
    var text := "";
    ghost var seen: seq<nat> := [];
    var k := fuel;
    while Decode(prog, cpu.ip).Some?
      invariant Tail(prog, s, fuel, seen, cpu.Regs(), k)
      invariant text == Render(seen)
      decreases k
    {
      var ok, d := cpu.Cycle(prog, s, fuel, seen, k);
      if !ok {
        return None;
      }
      text := Say(text, seen, d);
      seen := seen + Emit(d);
      k := k - 1;
    }
    RunEnds(prog, s, fuel, seen, cpu.Regs(), k);
    return Some(text);
  }

  /** `run1` prints the digit an instruction outputs, after a comma unless it is the first. */
  method Say(text: string, ghost seen: seq<nat>, d: Option<nat>) returns (text': string)
    requires text == Render(seen)
    ensures text' == Render(seen + Emit(d))
  {
    text' := text;
    if d.Some? {
      RenderSnoc(seen, d.value);
      RenderEmpty(seen);
      if text' != "" {
        text' := text' + ",";
      }
      text' := text' + NatToString(d.value);
      assert seen + Emit(d) == seen + [d.value];
    } else {
      assert seen + Emit(d) == seen;
    }
  }

  // ---------------------------------------------------------------- part two

  /** `oct`'s packing: output `i` shifted left by `3 * i` in a `u64`, or-ed together. */
  function Pack(outs: seq<nat>): nat
  {
    if outs == [] then 0
    else Or(Pack(outs[..|outs| - 1]), Shl(outs[|outs| - 1], 3 * (|outs| - 1), 64))
  }

  lemma PackSnoc(outs: seq<nat>, d: nat)
    ensures Pack(outs + [d]) == Or(Pack(outs), Shl(d, 3 * |outs|, 64))
  {
    assert (outs + [d])[..|outs|] == outs;
  }

  /** The program folded from its end: `(acc << 3) | d` in a `u64`. */
  function ProgBits(prog: seq<nat>): nat
  {
    if prog == [] then 0 else Or(Shl(ProgBits(prog[1..]), 3, 64), prog[0])
  }

  /** Octal digits, least significant first, as a number. */
  function Octal(ds: seq<nat>): nat
  {
    if ds == [] then 0 else ds[0] + 8 * Octal(ds[1..])
  }

  predicate OctalDigits(ds: seq<nat>) { forall i :: 0 <= i < |ds| ==> ds[i] < 8 }

  lemma Pow2Times8(k: nat)
    ensures Pow2(k + 3) == 8 * Pow2(k)
  {
    assert Pow2(k + 3) == 2 * Pow2(k + 2) == 4 * Pow2(k + 1);
  }

  lemma {:induction false} OctalBound(ds: seq<nat>)
    requires OctalDigits(ds)
    ensures Octal(ds) < Pow2(3 * |ds|)
  {
    if ds != [] {
      OctalBound(ds[1..]);
      Pow2Times8(3 * (|ds| - 1));
    }
  }

  lemma {:induction false} OctalSnoc(ds: seq<nat>, d: nat)
    ensures Octal(ds + [d]) == Octal(ds) + d * Pow2(3 * |ds|)
  {
    if ds == [] {
      assert ([d])[1..] == [];
    } else {
      var rest, x := ds[1..], ds[0];
      var p, o := Pow2(3 * |rest|), Octal(rest);
      assert (ds + [d])[1..] == rest + [d];
      OctalSnoc(rest, d);
      assert Octal(rest + [d]) == o + d * p;
      assert Octal(ds + [d]) == x + 8 * (o + d * p);
      assert Octal(ds) == x + 8 * o;
      Pow2Times8(3 * |rest|);
      assert Pow2(3 * |ds|) == 8 * p;
      MulComm8(d, p);
    }
  }

  lemma MulComm8(d: nat, p: nat)
    ensures 8 * (d * p) == d * (8 * p)
  {
  }

  /** Octal digits are read back from their number, one three-bit group at a time. */
  lemma {:induction false} OctalDigit(ds: seq<nat>, i: nat)
    requires OctalDigits(ds) && i < |ds|
    ensures (Octal(ds) / Pow2(3 * i)) % 8 == ds[i]
  {
    var v := Octal(ds);
    if i == 0 {
      assert Pow2(0) == 1;
      DivUnique(v, 8, Octal(ds[1..]), ds[0]);
    } else {
      var p := Pow2(3 * (i - 1));
      OctalDigit(ds[1..], i - 1);
      Pow2Times8(3 * (i - 1));
      assert Pow2(3 * i) == 8 * p;
      DivUnique(v, 8, Octal(ds[1..]), ds[0]);
      DivDiv(v, 8, p);
      assert v / Pow2(3 * i) == Octal(ds[1..]) / p;
    }
  }

  lemma {:induction false} OctalInjective(xs: seq<nat>, ys: seq<nat>)
    requires OctalDigits(xs) && OctalDigits(ys) && |xs| == |ys| && Octal(xs) == Octal(ys)
    ensures xs == ys
  {
    if xs != [] {
      assert xs[0] == ys[0] && Octal(xs[1..]) == Octal(ys[1..]);
      OctalInjective(xs[1..], ys[1..]);
      assert xs == [xs[0]] + xs[1..] && ys == [ys[0]] + ys[1..];
    }
  }

  /** A digit shifted to bit `k` with room for three bits above `k`. */
  lemma DigitFits(d: nat, k: nat, width: nat)
    requires d < 8 && k + 3 <= width
    ensures Shl(d, k, width) == d * Pow2(k) && d * Pow2(k) < Pow2(k + 3)
  {
    var p := Pow2(k);
    Pow2Times8(k);
    MulMono(p, d, 7);
    Pow2Monotone(k + 3, width);
    ShlNoLoss(d, k, width);
  }

  /** Up to 21 outputs fit a `u64` whole: `oct` reads them as octal digits. */
  lemma {:induction false} PackIsOctal(outs: seq<nat>)
    requires OctalDigits(outs) && |outs| <= 21
    ensures Pack(outs) == Octal(outs)
  {
    if outs != [] {
      var n := |outs| - 1;
      var init, d := outs[..n], outs[n];
      var v := Octal(init);
      assert init + [d] == outs;
      assert Pack(outs) == Or(Pack(init), Shl(d, 3 * n, 64));
      PackIsOctal(init);
      assert Pack(init) == v;
      OctalBound(init);
      DigitFits(d, 3 * n, 64);
      assert Shl(d, 3 * n, 64) == d * Pow2(3 * n);
      OrDisjoint(v, d, 3 * n);
      OctalSnoc(init, d);
      assert Octal(outs) == v + d * Pow2(3 * n);
    }
  }

  /** `oct` puts output `i` in bits `3i` to `3i + 2` of its result. */
  lemma PackDigit(outs: seq<nat>, i: nat)
    requires OctalDigits(outs) && |outs| <= 21 && i < |outs|
    ensures Pack(outs) < Pow2(3 * |outs|)
    ensures (Pack(outs) / Pow2(3 * i)) % 8 == outs[i]
  {
    PackIsOctal(outs);
    OctalBound(outs);
    OctalDigit(outs, i);
  }

  /** Up to 21 octal digits fold into their number. */
  lemma {:induction false} ProgBitsIsOctal(prog: seq<nat>)
    requires OctalDigits(prog) && |prog| <= 21
    ensures ProgBits(prog) == Octal(prog)
  {
    if prog != [] {
      var rest, x := prog[1..], prog[0];
      var v := Octal(rest);
      ProgBitsIsOctal(rest);
      assert ProgBits(prog) == Or(Shl(v, 3, 64), x);
      assert Octal(prog) == x + 8 * v;
      OctalBound(rest);
      Times8Fits(v, 3 * |rest|, 64);
      assert Shl(v, 3, 64) == v * 8;
      OrComm(v * 8, x);
      assert Pow2(3) == 8;
      OrDisjoint(x, v, 3);
      assert Or(x, v * 8) == x + v * 8;
    }
  }

  /** `v << 3` loses nothing when `v` has at most 61 bits. */
  lemma Times8Fits(v: nat, n: nat, width: nat)
    requires v < Pow2(n) && n + 3 <= width
    ensures Shl(v, 3, width) == v * 8 && v * 8 < Pow2(n + 3)
  {
    Pow2Times8(n);
    Pow2Monotone(n + 3, width);
    assert Pow2(3) == 8;
    ShlNoLoss(v, 3, width);
  }

  /** The `u64` test `run2_impl` applies to the result of `oct`: as many outputs as numbers, with the same bits. */
  predicate Matches(bits: nat, len: nat, prog: seq<nat>)
  {
    len == |prog| && LowBits(bits, 3 * |prog|) == ProgBits(prog)
  }

  /** The low `n` bits of `bits`: `bits & ((1 << n) - 1)`. */
  function LowBits(bits: nat, n: nat): nat { And(bits, Pow2(n) - 1) }

  lemma LowBitsBelow(a: nat, n: nat)
    requires a < Pow2(n)
    ensures LowBits(a, n) == a
  {
    AndLowMaskBelow(a, n);
  }

  /** For a program of at most 21 octal digits, the outputs pass the test exactly when they are the program. */
  lemma MatchesIsEqual(outs: seq<nat>, prog: seq<nat>)
    requires OctalDigits(outs) && OctalDigits(prog) && |prog| <= 21
    ensures Matches(Pack(outs), |outs|, prog) <==> outs == prog
  {
    var v, w, p := Octal(outs), Octal(prog), Pack(outs);
    ProgBitsIsOctal(prog);
    assert ProgBits(prog) == w;
    if |outs| == |prog| {
      var n := 3 * |prog|;
      assert n == 3 * |outs|;
      MaskedOctal(outs, n);
      assert LowBits(p, n) == v;
      assert Matches(p, |outs|, prog) <==> v == w;
      if v == w {
        OctalInjective(outs, prog);
      }
      assert v == w <==> outs == prog;
    } else {
      assert !Matches(p, |outs|, prog) && outs != prog;
    }
  }

  /** What `oct` returns for `a`, read off the run: none when it does not halt or outputs more than 22 digits. */
  ghost function OctOf(prog: seq<nat>, a: nat, fuel: nat): Option<(nat, nat)>
  {
    var o := Run(prog, NewA(a), fuel);
    if o.Halted? && |o.outs| <= 22 then Some((Pack(o.outs), |o.outs|)) else None
  }

  /** A value of A that `run2_impl` accepts. */
  ghost predicate Accepted(prog: seq<nat>, a: nat, fuel: nat)
  {
    OctOf(prog, a, fuel).Some? && Matches(OctOf(prog, a, fuel).value.0, OctOf(prog, a, fuel).value.1, prog)
  }

  /** For a program of at most 21 octal digits, A is accepted exactly when the program outputs itself. */
  lemma AcceptedIsQuine(prog: seq<nat>, a: nat, fuel: nat)
    requires OctalDigits(prog) && |prog| <= 21
    ensures Accepted(prog, a, fuel) <==> Run(prog, NewA(a), fuel) == Halted(prog)
  {
    var o := Run(prog, NewA(a), fuel);
    if o.Halted? {
      MatchesIsEqual(o.outs, prog);
    }
  }

  /** Masking up to 21 packed digits with as many three-bit groups keeps them all. */
  lemma MaskedOctal(outs: seq<nat>, n: nat)
    requires OctalDigits(outs) && |outs| <= 21 && n == 3 * |outs|
    ensures LowBits(Pack(outs), n) == Octal(outs)
  {
    var v, p := Octal(outs), Pack(outs);
    PackIsOctal(outs);
    assert p == v;
    OctalBound(outs);
    LowBitsBelow(v, n);
  }

  /**
   * `oct`: run the program with A set to `a` and pack its outputs; none when the
   * run panics, takes more than `fuel` instructions, or outputs a 23rd digit,
   * whose shift by 66 would panic.
   */
  method Oct(a: nat, prog: seq<nat>, fuel: nat) returns (r: Option<(nat, nat)>)
    ensures r == OctOf(prog, a, fuel)
  {
    var s0 := NewA(a);
    var cpu := new Cpu(s0);
    var bits, digits := 0, 0;
    ghost var seen: seq<nat> := [];
    var k := fuel;
    while Decode(prog, cpu.ip).Some?
      invariant Tail(prog, s0, fuel, seen, cpu.Regs(), k)
      invariant bits == Pack(seen) && digits == |seen| <= 22
      decreases k
    {
      var ok, d := cpu.Cycle(prog, s0, fuel, seen, k);
      if !ok {
        OctOfStops(prog, a, fuel);
        return None;
      }
      if d.Some? && digits * 3 >= 64 {
        OctOfLong(prog, a, fuel, seen + Emit(d), cpu.Regs(), k - 1);
        return None;
      }
      bits, digits := Absorb(bits, digits, seen, d);
      seen := seen + Emit(d);
      k := k - 1;
    }
    OctOfEnds(prog, a, fuel, seen, cpu.Regs(), k);
    return Some((bits, digits));
  }

  /** `r |= (d as u64) << (digits * 3); digits += 1` for the digit an instruction outputs. */
  method Absorb(bits: nat, digits: nat, ghost seen: seq<nat>, d: Option<nat>) returns (bits': nat, digits': nat)
    requires bits == Pack(seen) && digits == |seen| && (d.Some? ==> digits * 3 < 64)
    ensures bits' == Pack(seen + Emit(d)) && digits' == |seen + Emit(d)|
  {
    bits', digits' := bits, digits;
    if d.Some? {
      PackSnoc(seen, d.value);
      bits' := Or(bits, Shl(d.value, digits * 3, 64));
      digits' := digits + 1;
      assert seen + Emit(d) == seen + [d.value];
    } else {
      assert seen + Emit(d) == seen;
    }
  }

  lemma OctOfStops(prog: seq<nat>, a: nat, fuel: nat)
    requires !Run(prog, NewA(a), fuel).Halted?
    ensures OctOf(prog, a, fuel) == None
  {
  }

  /** A run that has output a 23rd digit has no result from `oct`. */
  lemma OctOfLong(prog: seq<nat>, a: nat, fuel: nat, seen: seq<nat>, s: State, k: nat)
    requires Tail(prog, NewA(a), fuel, seen, s, k) && |seen| > 22
    ensures OctOf(prog, a, fuel) == None
  {
  }

  lemma OctOfEnds(prog: seq<nat>, a: nat, fuel: nat, seen: seq<nat>, s: State, k: nat)
    requires Tail(prog, NewA(a), fuel, seen, s, k) && Decode(prog, s.ip).None? && |seen| <= 22
    ensures OctOf(prog, a, fuel) == Some((Pack(seen), |seen|))
  {
    RunEnds(prog, NewA(a), fuel, seen, s, k);
  }

  /** A candidate of the search: the value of A, the next bit to set, and the output bits to match. */
  datatype Node = Node(a: nat, updateMask: nat, checkMask: nat)

  predicate U64Node(n: Node) { n.a < U64_LIMIT && n.updateMask < U64_LIMIT && n.checkMask < U64_LIMIT }

  predicate U64Nodes(ns: seq<Node>) { forall i :: 0 <= i < |ns| ==> U64Node(ns[i]) }

  /** The search starts from every value of the low twelve bits. */
  const START_BIT: nat := 12

  /**
   * `run2_impl`: a breadth-first search over values of A, fixing one more bit of A
   * whenever one more bit of the output matches the program. A value it returns
   * is a `u64` that passes the test; none when a run ends without a result or the
   * search takes more than `rounds` steps.
   */
  method Run2Impl(prog: seq<nat>, fuel: nat, rounds: nat) returns (r: Option<string>)
    ensures r.Some? ==> r.value == "failed" || exists a: nat :: a < U64_LIMIT && r.value == NatToString(a) && Accepted(prog, a, fuel)
  {
    if |prog| * 3 >= 64 {
      return None;
    }
    var progBits := ProgBits(prog);
    var progMask := ProgMask(prog);
    var work := Seeds();
    var left := rounds;
    while work != []
      invariant U64Nodes(work)
      decreases left
    {
      if left == 0 {
        return None;
      }
      left := left - 1;
      var n := work[0];
      assert U64Node(n);
      work := work[1..];
      assert U64Nodes(work);
      var o := Oct(n.a, prog, fuel);
      if o.None? {
        return None;
      }
      var (bits, len) := o.value;
      if len == |prog| && And(bits, progMask) == progBits {
        MaskTest(bits, prog, progMask);
        assert Accepted(prog, n.a, fuel);
        return Some(NatToString(n.a));
      }
      if And(Xor(bits, progBits), n.checkMask) == 0 {
        var more := Children(n);
        assert U64Nodes(more);
        work := work + more;
      }
    }
    return Some("failed");
  }

  /** `prog_mask`: the low `3 * |prog|` bits set. */
  method ProgMask(prog: seq<nat>) returns (mask: nat)
    requires |prog| * 3 < 64
    ensures mask == Pow2(3 * |prog|) - 1
  {
    var n := |prog| * 3;
    ShlOne(n, 64);
    mask := Shl(1, n, 64) - 1;
  }

  /** The test `bits & prog_mask == prog_bits` reads the low bits of the packed outputs. */
  lemma MaskTest(bits: nat, prog: seq<nat>, mask: nat)
    requires mask == Pow2(3 * |prog|) - 1
    ensures And(bits, mask) == LowBits(bits, 3 * |prog|)
  {
  }

  /** The first nodes: every value of the low twelve bits, with bit 12 next to set and one output digit to match. */
  method Seeds() returns (work: seq<Node>)
    ensures |work| == Pow2(START_BIT)
    ensures forall i :: 0 <= i < |work| ==> work[i] == Node(i, Pow2(START_BIT), 1)
    ensures U64Nodes(work)
  {
    assert Pow2(START_BIT) == 4096;
    ShlOne(START_BIT, 64);
    var top := Shl(1, START_BIT, 64);
    work := [];
    for a := 0 to top
      invariant |work| == a
      invariant forall i :: 0 <= i < a ==> work[i] == Node(i, top, 1)
    {
      work := work + [Node(a, top, 1)];
    }
  }

  /** The two nodes pushed after a match: bit `update_mask` of A clear and set, one more output bit to check. */
  function Children(n: Node): (r: seq<Node>)
    requires U64Node(n)
    ensures |r| == 2 && U64Node(r[0]) && U64Node(r[1])
    ensures r[0].a == n.a && r[1].a == Or(n.a, n.updateMask)
  {
    Pow2Value64();
    OrBound(n.a, n.updateMask, 64);
    OrBound(Shl(n.checkMask, 1, 64), 1, 64);
    var updateMask := Shl(n.updateMask, 1, 64);
    var checkMask := Or(Shl(n.checkMask, 1, 64), 1);
    [Node(n.a, updateMask, checkMask), Node(Or(n.a, n.updateMask), updateMask, checkMask)]
  }

  // ---------------------------------------------------------------- parsing

  /** The text after the first `:` of every line that has one, trimmed. */
  function Fields(lines: seq<string>): seq<string>
  {
    if lines == [] then []
    else match SplitOnce(lines[0], ':')
      case None => Fields(lines[1..])
      case Some((_, rest)) => [Trim(rest)] + Fields(lines[1..])
  }

  /** `str::parse::<u64>`, with the message of its error. */
  function ParseU64(s: string): (r: Result<nat>)
    ensures r.Ok? <==> ParseInt(s, 0, U64_LIMIT - 1).Some?
    ensures r.Ok? ==> r.value == ParseInt(s, 0, U64_LIMIT - 1).value
  {
    match ParseInt(s, 0, U64_LIMIT - 1)
    case None => Err(IntErrorMessage(IntErrorOf(s, 0, U64_LIMIT - 1)))
    case Some(v) => Ok(v as nat)
  }

  /** `str::parse::<u8>`, likewise. */
  function ParseU8(s: string): (r: Result<nat>)
    ensures r.Ok? <==> ParseInt(s, 0, U8_LIMIT - 1).Some?
    ensures r.Ok? ==> r.value == ParseInt(s, 0, U8_LIMIT - 1).value
  {
    match ParseInt(s, 0, U8_LIMIT - 1)
    case None => Err(IntErrorMessage(IntErrorOf(s, 0, U8_LIMIT - 1)))
    case Some(v) => Ok(v as nat)
  }

  /**
   * `parse_input`: the first three fields are registers A, B and C, the fourth
   * the program, numbers separated by commas; a missing field is an error.
   */
  function ParseInput(input: string): (r: Result<(State, seq<nat>)>)
    ensures r.Ok? ==> r.value.0.ip == 0 && Registers(r.value.0) && IsProgram(r.value.1) && |r.value.1| >= 1
    ensures |Fields(Lines(input))| < 4 ==> r.Err?
    ensures r.Ok? ==> CollectAll(Split(Fields(Lines(input))[3], ','), ParseU8) == Ok(r.value.1)
  {
    var fs := Fields(Lines(input));
    match ParseRegisters(fs)
    case Err(e) => Err(e)
    case Ok(s) =>
      if |fs| < 4 then Err("invalid input")
      else match ParseProgram(fs[3])
        case Err(e) => Err(e)
        case Ok(v) => Ok((s, v))
  }

  /** The program field: `u8` numbers separated by commas, the first bad one an error. */
  function ParseProgram(field: string): (r: Result<seq<nat>>)
    ensures r == CollectAll(Split(field, ','), ParseU8)
    ensures r.Ok? ==> IsProgram(r.value) && |r.value| >= 1
  {
    CollectAll(Split(field, ','), ParseU8)
  }

  /** The first three fields of `parse_input`, read in order as `u64` registers A, B and C. */
  function ParseRegisters(fs: seq<string>): (r: Result<State>)
    ensures r.Ok? ==> |fs| >= 3 && r.value.ip == 0 && Registers(r.value)
    ensures r.Ok? ==> forall k :: 0 <= k < 3 ==> ParseU64(fs[k]).Ok?
  {
    if |fs| < 1 then Err("invalid input")
    else match ParseU64(fs[0])
      case Err(e) => Err(e)
      case Ok(a) =>
        if |fs| < 2 then Err("invalid input")
        else match ParseU64(fs[1])
          case Err(e) => Err(e)
          case Ok(b) =>
            if |fs| < 3 then Err("invalid input")
            else match ParseU64(fs[2])
              case Err(e) => Err(e)
              case Ok(c) => Ok(State(0, a, b, c))
  }

  /** The puzzle input for registers `s` and program `prog`, written in the usual layout. */
  function InputText(s: State, prog: seq<nat>): string
  {
    Unlines([
      Line("Register A", NatToString(s.a)),
      Line("Register B", NatToString(s.b)),
      Line("Register C", NatToString(s.c)),
      "",
      Line("Program", Render(prog))])
  }

  /** A line `head: value` of the input. */
  function Line(head: string, value: string): string { head + ": " + value }

  /** Every character of rendered outputs is a digit or a comma. */
  lemma RenderChars(outs: seq<nat>)
    ensures Numeric(Render(outs))
  {
    var ws := seq(|outs|, i requires 0 <= i < |outs| => NatToString(outs[i]));
    forall i, k | 0 <= i < |ws| && 0 <= k < |ws[i]|
      ensures IsDigit(ws[i][k]) || ws[i][k] == ','
    {
      assert ws[i] == NatToString(outs[i]);
    }
    JoinWithin(ws, ",", c => IsDigit(c) || c == ',');
  }

  /** Digits and commas, as in register values and programs. */
  predicate Numeric(v: string) { forall k :: 0 <= k < |v| ==> IsDigit(v[k]) || v[k] == ',' }

  lemma NumericNoSpace(v: string)
    requires Numeric(v)
    ensures forall k :: 0 <= k < |v| ==> v[k] !in Whitespace
  {
    forall k | 0 <= k < |v|
      ensures v[k] !in Whitespace
    {
      var c := v[k];
      assert IsDigit(c) || c == ',';
    }
  }

  /** The value after `: ` is the field. */
  lemma TrimField(value: string)
    requires |value| > 0 && Numeric(value)
    ensures Trim(" " + value) == value
  {
    NumericNoSpace(value);
    TrimStartOf(" ", value, Whitespace);
    TrimStartOf([], value, Whitespace);
    assert [] + value == value;
    TrimNoSpace(value);
  }

  /** A line `head: value` of the input splits at its colon. */
  lemma SplitField(head: string, value: string)
    requires ':' !in head
    ensures SplitOnce(head + ": " + value, ':') == Some((head, " " + value))
  {
    assert head + ": " + value == head + [':'] + (" " + value);
    SplitOnceAt(head, ':', " " + value);
  }

  /** A line `head: value` is a line of its own. */
  lemma LineField(head: string, value: string)
    requires '\n' !in head && |value| > 0 && Numeric(value)
    ensures '\n' !in head + ": " + value && (head + ": " + value)[|head + ": " + value| - 1] != '\r'
  {
    var line := head + ": " + value;
    var n := |head| + 2;
    assert line[|line| - 1] == value[|value| - 1];
    forall k | 0 <= k < |line|
      ensures line[k] != '\n'
    {
      if k >= n {
        assert line[k] == value[k - n];
      } else if k < |head| {
        assert line[k] == head[k];
      }
    }
  }

  /** A line `head: value` of the input gives the field `value`. */
  lemma FieldsField(ls: seq<string>, head: string, value: string)
    requires |ls| > 0 && ls[0] == Line(head, value)
    requires ':' !in head && |value| > 0 && Numeric(value)
    ensures Fields(ls) == [value] + Fields(ls[1..])
  {
    SplitField(head, value);
    TrimField(value);
  }

  /** The five lines of the usual layout give four fields. */
  lemma LayoutFields(ha: string, va: string, hb: string, vb: string, hc: string, vc: string, hp: string, vp: string)
    requires ':' !in ha && '\n' !in ha && |va| > 0 && Numeric(va)
    requires ':' !in hb && '\n' !in hb && |vb| > 0 && Numeric(vb)
    requires ':' !in hc && '\n' !in hc && |vc| > 0 && Numeric(vc)
    requires ':' !in hp && '\n' !in hp && |vp| > 0 && Numeric(vp)
    ensures var fs := Fields(Lines(Unlines([Line(ha, va), Line(hb, vb), Line(hc, vc), "", Line(hp, vp)])));
      |fs| == 4 && fs[0] == va && fs[1] == vb && fs[2] == vc && fs[3] == vp
  {
    var ls := [Line(ha, va), Line(hb, vb), Line(hc, vc), "", Line(hp, vp)];
    LayoutLines(ha, va, hb, vb, hc, vc, hp, vp);
    var fs := Fields(ls);
    LayoutFieldsOfLines(ha, va, hb, vb, hc, vc, hp, vp);
    assert Lines(Unlines(ls)) == ls;
  }

  lemma LayoutLines(ha: string, va: string, hb: string, vb: string, hc: string, vc: string, hp: string, vp: string)
    requires '\n' !in ha && |va| > 0 && Numeric(va)
    requires '\n' !in hb && |vb| > 0 && Numeric(vb)
    requires '\n' !in hc && |vc| > 0 && Numeric(vc)
    requires '\n' !in hp && |vp| > 0 && Numeric(vp)
    ensures var ls := [Line(ha, va), Line(hb, vb), Line(hc, vc), "", Line(hp, vp)]; Lines(Unlines(ls)) == ls
  {
    LineField(ha, va);
    LineField(hb, vb);
    LineField(hc, vc);
    LineField(hp, vp);
    LinesOfUnlines([Line(ha, va), Line(hb, vb), Line(hc, vc), "", Line(hp, vp)]);
  }

  lemma LayoutFieldsOfLines(ha: string, va: string, hb: string, vb: string, hc: string, vc: string, hp: string, vp: string)
    requires ':' !in ha && |va| > 0 && Numeric(va)
    requires ':' !in hb && |vb| > 0 && Numeric(vb)
    requires ':' !in hc && |vc| > 0 && Numeric(vc)
    requires ':' !in hp && |vp| > 0 && Numeric(vp)
    ensures var fs := Fields([Line(ha, va), Line(hb, vb), Line(hc, vc), "", Line(hp, vp)]);
      |fs| == 4 && fs[0] == va && fs[1] == vb && fs[2] == vc && fs[3] == vp
  {
    var la, lb, lc, lp := Line(ha, va), Line(hb, vb), Line(hc, vc), Line(hp, vp);
    ConsFive(la, lb, lc, "", lp);
    FieldsCons(la, [lb, lc, "", lp], ha, va);
    FieldsCons(lb, [lc, "", lp], hb, vb);
    FieldsCons(lc, ["", lp], hc, vc);
    FieldsBlank([lp]);
    FieldsCons(lp, [], hp, vp);
    assert [lp] + [] == [lp];
    assert Fields([]) == [];
    FieldsChain(Fields([la, lb, lc, "", lp]), Fields([lb, lc, "", lp]), Fields([lc, "", lp]), Fields(["", lp]), Fields([lp]),
      va, vb, vc, vp);
  }

  /** Four fields, one line at a time. */
  lemma FieldsChain(f5: seq<string>, f4: seq<string>, f3: seq<string>, f2: seq<string>, f1: seq<string>,
                    va: string, vb: string, vc: string, vp: string)
    requires f5 == [va] + f4 && f4 == [vb] + f3 && f3 == [vc] + f2 && f2 == f1 && f1 == [vp]
    ensures |f5| == 4 && f5[0] == va && f5[1] == vb && f5[2] == vc && f5[3] == vp
  {
  }

  /** A five-element list is its head in front of its tail, and so on down. */
  lemma ConsFive<T>(a: T, b: T, c: T, d: T, e: T)
    ensures [a, b, c, d, e] == [a] + [b, c, d, e] && [b, c, d, e] == [b] + [c, d, e]
    ensures [c, d, e] == [c] + [d, e] && [d, e] == [d] + [e]
  {
  }

  /** An empty line has no field. */
  lemma FieldsBlank(rest: seq<string>)
    ensures Fields([""] + rest) == Fields(rest)
  {
    assert ([""] + rest)[1..] == rest;
  }

  /** A field line in front of more lines adds its value in front of their fields. */
  lemma FieldsCons(line: string, rest: seq<string>, head: string, value: string)
    requires line == Line(head, value) && ':' !in head && |value| > 0 && Numeric(value)
    ensures Fields([line] + rest) == [value] + Fields(rest)
  {
    FieldsField([line] + rest, head, value);
    assert ([line] + rest)[1..] == rest;
  }

  /** Shortest decimal forms parse back as the numbers they write. */
  lemma ParseOfNatToString(v: nat)
    ensures v < U64_LIMIT ==> ParseU64(NatToString(v)) == Ok(v)
    ensures v < U8_LIMIT ==> ParseU8(NatToString(v)) == Ok(v)
  {
    assert IntToString(v) == NatToString(v);
    if v < U64_LIMIT {
      ParseIntOfIntToString(v, 0, U64_LIMIT - 1);
    }
    if v < U8_LIMIT {
      ParseIntOfIntToString(v, 0, U8_LIMIT - 1);
    }
  }

  /** The numbers of a rendered program read back as the program. */
  lemma ProgramOfRender(prog: seq<nat>)
    requires IsProgram(prog) && |prog| >= 1
    ensures CollectAll(Split(Render(prog), ','), ParseU8) == Ok(prog)
  {
    var ws := seq(|prog|, i requires 0 <= i < |prog| => NatToString(prog[i]));
    assert Render(prog) == Join(ws, [',']);
    forall i | 0 <= i < |ws|
      ensures ',' !in ws[i] && ParseU8(ws[i]) == Ok(prog[i])
    {
      var w := NatToString(prog[i]);
      assert ws[i] == w;
      assert forall k :: 0 <= k < |w| ==> w[k] != ',';
      ParseOfNatToString(prog[i]);
    }
    SplitOfJoin(ws, ',');
    var r := CollectAll(ws, ParseU8);
    assert r.Ok?;
    assert r.value == prog;
  }

  /** The usual layout of the input parses back to the registers and the program. */
  lemma ParseInputOfText(s: State, prog: seq<nat>)
    requires s.ip == 0 && Registers(s) && IsProgram(prog) && |prog| >= 1
    ensures ParseInput(InputText(s, prog)) == Ok((s, prog))
  {
    var va, vb, vc, vp := NatToString(s.a), NatToString(s.b), NatToString(s.c), Render(prog);
    RenderChars(prog);
    RenderEmpty(prog);
    assert Numeric(va) && Numeric(vb) && Numeric(vc);
    LayoutFields("Register A", va, "Register B", vb, "Register C", vc, "Program", vp);
    ParseOfNatToString(s.a);
    ParseOfNatToString(s.b);
    ParseOfNatToString(s.c);
    ProgramOfRender(prog);
  }

  // ---------------------------------------------------------------- the first sample

  /** The first sample program: `adv 1; out A; jnz 0`. */
  const SAMPLE: seq<nat> := [0, 1, 5, 4, 3, 0]

  /** One turn of the sample loop halves A and outputs its low octal digit. */
  lemma SampleTurn(a: nat, b: nat, c: nat, fuel: nat)
    requires fuel >= 3
    ensures Run(SAMPLE, State(0, a, b, c), fuel)
      == Prepend([(a / 2) % 8], Run(SAMPLE, State(if a / 2 != 0 then 0 else 6, a / 2, b, c), fuel - 3))
  {
    var s0 := State(0, a, b, c);
    assert Pow2(1) == 2;
    assert Decode(SAMPLE, 0) == Some(Adv(1));
    var s1 := State(2, a / 2, b, c);
    assert Step(s0, Adv(1)) == (s1, None);
    assert Decode(SAMPLE, 2) == Some(Out(4));
    var s2 := State(4, a / 2, b, c);
    var o: nat := (a / 2) % 8;
    assert Step(s1, Out(4)) == (s2, Some(o));
    assert Decode(SAMPLE, 4) == Some(Jnz(0));
    var s3 := State(if a / 2 != 0 then 0 else 6, a / 2, b, c);
    assert Step(s2, Jnz(0)) == (s3, None);
    var rest := Run(SAMPLE, s3, fuel - 3);
    assert Run(SAMPLE, s2, fuel - 2) == rest;
    assert Run(SAMPLE, s1, fuel - 1) == Prepend([o], rest);
    assert Run(SAMPLE, s0, fuel) == Run(SAMPLE, s1, fuel - 1);
  }

  /** What the sample outputs from A = `a`: each halving's low octal digit, ending with the one where A becomes 0. */
  function SampleOut(a: nat): seq<nat>
    decreases a
  {
    var h := a / 2;
    [h % 8] + (if h == 0 then [] else SampleOut(h))
  }

  /** How many turns of the sample loop run from A = `a`. */
  function SampleTurns(a: nat): nat
    decreases a
  {
    if a / 2 == 0 then 1 else 1 + SampleTurns(a / 2)
  }

  /** With fuel for every turn, the sample halts with `SampleOut(a)`. */
  lemma {:induction false} SampleRun(a: nat, b: nat, c: nat, fuel: nat)
    requires fuel >= 3 * SampleTurns(a)
    ensures Run(SAMPLE, State(0, a, b, c), fuel) == Halted(SampleOut(a))
    decreases a
  {
    var h := a / 2;
    SampleTurn(a, b, c, fuel);
    if h == 0 {
      assert Decode(SAMPLE, 6).None?;
      assert Run(SAMPLE, State(6, h, b, c), fuel - 3) == Halted([]);
      assert [h % 8] + [] == [h % 8];
    } else {
      SampleRun(h, b, c, fuel - 3);
    }
  }

  /** The first sample: with A = 729 the program outputs 4,6,3,5,6,3,5,2,1,0 within thirty instructions. */
  lemma SampleOne(a: nat, fuel: nat)
    requires a == 729 && fuel >= 30
    ensures Run(SAMPLE, State(0, a, 0, 0), fuel) == Halted([4, 6, 3, 5, 6, 3, 5, 2, 1, 0])
  {
    SampleOutHigh(a);
    SampleRun(a, 0, 0, fuel);
  }

  lemma SampleOutHigh(a: nat)
    requires a == 729
    ensures SampleTurns(a) == 10 && SampleOut(a) == [4, 6, 3, 5, 6, 3, 5, 2, 1, 0]
  {
    var a1 := a / 2;
    var a2 := a1 / 2;
    var a3 := a2 / 2;
    assert a1 == 364 && a2 == 182 && a3 == 91;
    SampleOutMid(a3);
    SampleStep(a2, a3, 3);
    SampleStep(a1, a2, 6);
    SampleStep(a, a1, 4);
    ConsUp(SampleOut(a3), [5, 6, 3, 5, 2, 1, 0], 3, 6, 4);
  }

  lemma SampleOutMid(a: nat)
    requires a == 91
    ensures SampleTurns(a) == 7 && SampleOut(a) == [5, 6, 3, 5, 2, 1, 0]
  {
    var a1 := a / 2;
    var a2 := a1 / 2;
    assert a1 == 45 && a2 == 22;
    SampleOutLow(a2);
    SampleStep(a1, a2, 6);
    SampleStep(a, a1, 5);
    ConsUp2(SampleOut(a2), [3, 5, 2, 1, 0], 6, 5);
  }

  lemma SampleOutLow(a: nat)
    requires a == 22
    ensures SampleTurns(a) == 5 && SampleOut(a) == [3, 5, 2, 1, 0]
  {
    var a1 := a / 2;
    var a2 := a1 / 2;
    var a3 := a2 / 2;
    var a4 := a3 / 2;
    assert a1 == 11 && a2 == 5 && a3 == 2 && a4 == 1;
    assert SampleTurns(a4) == 1 && SampleOut(a4) == [0];
    SampleStep(a3, a4, 1);
    SampleStep(a2, a3, 2);
    SampleStep(a1, a2, 5);
    SampleStep(a, a1, 3);
    ConsUp(SampleOut(a4), [0], 1, 2, 5);
    assert [3] + [5, 2, 1, 0] == [3, 5, 2, 1, 0];
  }

  /** One turn of the sample loop: output `(a / 2) % 8`, then run on from `a / 2`. */
  lemma SampleStep(a: nat, h: nat, d: nat)
    requires h == a / 2 && h > 0 && d == h % 8
    ensures SampleTurns(a) == 1 + SampleTurns(h) && SampleOut(a) == [d] + SampleOut(h)
  {
  }

  /** Three outputs in front of a known tail. */
  lemma ConsUp(s: seq<nat>, t: seq<nat>, x: nat, y: nat, z: nat)
    requires s == t
    ensures [z] + ([y] + ([x] + s)) == [z, y, x] + t
  {
  }

  /** Two outputs in front of a known tail. */
  lemma ConsUp2(s: seq<nat>, t: seq<nat>, x: nat, y: nat)
    requires s == t
    ensures [y] + ([x] + s) == [y, x] + t
  {
  }

}

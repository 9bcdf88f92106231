/**
 * Day 24: a circuit of AND, OR and XOR gates over named wires. Some wires have an
 * initial value; every other wire takes the value of the gate that drives it. Part
 * one reads the number whose bit `i` is wire `z<i>`.
 */
module Day24 {
  import opened Wrappers
  import opened Text
  import opened Bits

  // ---------------------------------------------------------------- wires and gates

  predicate IsWireChar(c: char) { 'a' <= c <= 'z' || '0' <= c <= '9' }

  /** Three ASCII lowercase letters or digits. */
  predicate IsWireName(s: string) { |s| == 3 && forall i :: 0 <= i < 3 ==> IsWireChar(s[i]) }

  datatype Wire = Wire(name: string)

  /** `Wire::parse`. */
  function WireParse(s: string): (r: Option<Wire>)
    ensures r.Some? <==> IsWireName(s)
    ensures r.Some? ==> r.value.name == s
  {
    if IsWireName(s) then Some(Wire(s)) else None
  }

  /** `Wire::as_str` parses back to the same wire. */
  lemma WireRoundTrip(w: Wire)
    requires IsWireName(w.name)
    ensures WireParse(w.name) == Some(w)
  {
  }

  datatype Op = And | Or | Xor

  /** `Op::as_str`. */
  function OpStr(op: Op): string
  {
    match op
    case And => "AND"
    case Or => "OR"
    case Xor => "XOR"
  }

  /** `Op::parse`: exactly the three operator names, each back to its operator. */
  function OpParse(s: string): (r: Option<Op>)
    ensures forall op :: r == Some(op) <==> s == OpStr(op)
  {
    if s == "AND" then Some(And) else if s == "OR" then Some(Or) else if s == "XOR" then Some(Xor) else None
  }

  datatype Gate = Gate(op: Op, a: Wire, b: Wire)

  /** `Gate::result`. */
  function GateResult(g: Gate, a: bool, b: bool): bool
  {
    match g.op
    case And => a && b
    case Or => a || b
    case Xor => a != b
  }

  function BitOf(v: bool): nat { if v then 1 else 0 }

  /** A gate computes the bitwise operation of its name on one-bit inputs. */
  lemma GateResultIsBitwise(g: Gate, a: bool, b: bool)
    ensures GateResult(g, a, b) == TestBit(match g.op
      case And => Bits.And(BitOf(a), BitOf(b))
      case Or => Bits.Or(BitOf(a), BitOf(b))
      case Xor => Bits.Xor(BitOf(a), BitOf(b)), 0)
  {
    AndBit(BitOf(a), BitOf(b), 0);
    OrBit(BitOf(a), BitOf(b), 0);
    XorBit(BitOf(a), BitOf(b), 0);
    TestBitZero(BitOf(a));
    TestBitZero(BitOf(b));
  }

  // ---------------------------------------------------------------- parsing

  /** An initial value line `xyz: n`, with `n` a `u8` and any non-zero value true. */
  function InitLine(line: string): (r: Result<(Wire, bool)>)
    ensures r.Ok? <==> (SplitOnceStr(line, ": ").Some? &&
                        WireParse(SplitOnceStr(line, ": ").value.0).Some? &&
                        ParseInt(SplitOnceStr(line, ": ").value.1, 0, 255).Some?)
    ensures r.Ok? ==> r.value.0.name == SplitOnceStr(line, ": ").value.0 &&
                      (r.value.1 <==> ParseInt(SplitOnceStr(line, ": ").value.1, 0, 255).value != 0)
  {
    match SplitOnceStr(line, ": ")
    case None => Err("invalid: " + line)
    case Some((l, v)) =>
      match WireParse(l)
      case None => Err("invalid: " + line)
      case Some(w) =>
        match ParseInt(v, 0, 255)
        case None => Err(IntErrorMessage(IntErrorOf(v, 0, 255)))
        case Some(n) => Ok((w, n != 0))
  }

  /** A gate line `a OP b -> out`, split at ASCII whitespace; words after `out` are ignored. */
  function GateLine(line: string): (r: Result<(Wire, Gate)>)
    ensures var ws := Words(line);
      r.Ok? <==> |ws| >= 5 && WireParse(ws[0]).Some? && OpParse(ws[1]).Some? && WireParse(ws[2]).Some? &&
                 ws[3] == "->" && WireParse(ws[4]).Some?
    ensures var ws := Words(line);
      r.Ok? ==> r.value.0.name == ws[4] && r.value.1.a.name == ws[0] && r.value.1.b.name == ws[2] &&
                ws[1] == OpStr(r.value.1.op)
  {
    var ws := Words(line);
    if |ws| < 1 || WireParse(ws[0]).None? then Err("invalid: " + line)
    else if |ws| < 2 || OpParse(ws[1]).None? then Err("invalid: " + line)
    else if |ws| < 3 || WireParse(ws[2]).None? then Err("invalid: " + line)
    else if |ws| < 4 || ws[3] != "->" then Err("invalid: " + line)
    else if |ws| < 5 || WireParse(ws[4]).None? then Err("invalid: " + line)
    else
      var op := OpParse(ws[1]).value;
      assert ws[1] == OpStr(op);
      Ok((WireParse(ws[4]).value, Gate(op, WireParse(ws[0]).value, WireParse(ws[2]).value)))
  }

  /** A gate written out in the puzzle's form. */
  function GateText(out: Wire, g: Gate): string
  {
    Join([g.a.name, OpStr(g.op), g.b.name, "->", out.name], " ")
  }

  /** A string without whitespace characters has no ASCII space. */
  lemma {:induction false} NoSpaceOf(s: string)
    requires forall i :: 0 <= i < |s| ==> s[i] !in AsciiWhitespace
    ensures NoAsciiSpace(s)
  {
    if s != [] {
      assert forall i :: 0 <= i < |s| - 1 ==> s[1..][i] == s[i + 1];
      NoSpaceOf(s[1..]);
    }
  }

  /** A gate line written out parses back to the same gate. */
  lemma GateLineRoundTrip(out: Wire, g: Gate)
    requires IsWireName(out.name) && IsWireName(g.a.name) && IsWireName(g.b.name)
    ensures GateLine(GateText(out, g)) == Ok((out, g))
  {
    var ws := [g.a.name, OpStr(g.op), g.b.name, "->", out.name];
    forall i | 0 <= i < |ws| ensures IsWord(ws[i]) {
      NoSpaceOf(ws[i]);
    }
    WordsOfJoin(ws);
  }

  /** The first empty line, which ends the initial values, or the number of lines. */
  function FirstBlank(ls: seq<string>): (k: nat)
    ensures k <= |ls| && (k < |ls| ==> ls[k] == [])
    ensures forall i :: 0 <= i < k ==> ls[i] != []
  {
    if ls == [] then 0
    else if ls[0] == [] then 0
    else 1 + FirstBlank(ls[1..])
  }

  /**
   * The `for` loop that inserts the entry of each line into a map: the first line that
   * does not parse is the error; a later line for the same wire overwrites an earlier one.
   */
  function Load<V>(ls: seq<string>, parse: string -> Result<(Wire, V)>, acc: map<Wire, V>): (r: Result<map<Wire, V>>)
  {
    if ls == [] then Ok(acc)
    else
      match parse(ls[0])
      case Err(e) => Err(e)
      case Ok((w, v)) => Load(ls[1..], parse, acc[w := v])
  }

  /** Every line parses. */
  predicate AllParse<V>(ls: seq<string>, parse: string -> Result<(Wire, V)>)
  {
    forall i :: 0 <= i < |ls| ==> parse(ls[i]).Ok?
  }

  /** Line `i` is the last one for wire `w`. */
  predicate LastFor<V>(ls: seq<string>, parse: string -> Result<(Wire, V)>, w: Wire, i: int)
    requires AllParse(ls, parse)
  {
    0 <= i < |ls| && parse(ls[i]).value.0 == w &&
    forall j :: i < j < |ls| ==> parse(ls[j]).value.0 != w
  }

  /**
   * Loading succeeds exactly when every line parses; it then maps each wire of a line to
   * the value of its last line, and keeps the other entries it started with.
   */
  lemma {:induction false} LoadMeaning<V>(ls: seq<string>, parse: string -> Result<(Wire, V)>, acc: map<Wire, V>)
    ensures Load(ls, parse, acc).Ok? <==> AllParse(ls, parse)
    ensures AllParse(ls, parse) ==>
      var m := Load(ls, parse, acc).value;
      forall w :: (w in m <==> w in acc || exists i :: 0 <= i < |ls| && parse(ls[i]).value.0 == w) &&
                  (w in m && (forall i :: 0 <= i < |ls| ==> parse(ls[i]).value.0 != w) ==> m[w] == acc[w])
    ensures AllParse(ls, parse) ==>
      forall w, i :: LastFor(ls, parse, w, i) ==>
        w in Load(ls, parse, acc).value && Load(ls, parse, acc).value[w] == parse(ls[i]).value.1
  {
    if ls != [] {
      var rest := ls[1..];
      assert forall i :: 0 < i < |ls| ==> ls[i] == rest[i - 1];
      match parse(ls[0])
      case Err(e) =>
      case Ok((w0, v0)) =>
        var acc' := acc[w0 := v0];
        LoadMeaning(rest, parse, acc');
        if AllParse(ls, parse) {
          assert AllParse(rest, parse) by {
            forall i | 0 <= i < |rest| ensures parse(rest[i]).Ok? { assert rest[i] == ls[i + 1]; }
          }
          var m := Load(rest, parse, acc').value;
          forall w ensures w in m <==> w in acc || exists i :: 0 <= i < |ls| && parse(ls[i]).value.0 == w {
            if exists i :: 0 <= i < |rest| && parse(rest[i]).value.0 == w {
              var i :| 0 <= i < |rest| && parse(rest[i]).value.0 == w;
              assert parse(ls[i + 1]).value.0 == w;
            }
            if exists i :: 0 <= i < |ls| && parse(ls[i]).value.0 == w {
              var i :| 0 <= i < |ls| && parse(ls[i]).value.0 == w;
              if i > 0 { assert parse(rest[i - 1]).value.0 == w; }
            }
          }
          forall w | w in m && (forall i :: 0 <= i < |ls| ==> parse(ls[i]).value.0 != w) ensures m[w] == acc[w] {
            assert parse(ls[0]).value.0 != w;
            assert forall i :: 0 <= i < |rest| ==> parse(rest[i]).value.0 != w by {
              forall i | 0 <= i < |rest| ensures parse(rest[i]).value.0 != w { assert rest[i] == ls[i + 1]; }
            }
          }
          forall w, i | LastFor(ls, parse, w, i) ensures m[w] == parse(ls[i]).value.1 {
            if i > 0 {
              assert LastFor(rest, parse, w, i - 1);
            } else {
              assert forall j :: 0 <= j < |rest| ==> parse(rest[j]).value.0 != w by {
                forall j | 0 <= j < |rest| ensures parse(rest[j]).value.0 != w { assert rest[j] == ls[j + 1]; }
              }
              assert w in acc';
            }
          }
        } else {
          var i :| 0 <= i < |ls| && parse(ls[i]).Err?;
          assert i > 0 && parse(rest[i - 1]).Err?;
        }
    }
  }

  /** The initial values and the gates, each keyed by the wire it sets. */
  datatype Problem = Problem(wires: map<Wire, bool>, circuit: map<Wire, Gate>)

  /** The lines after the blank one, if there is one. */
  function GateLines(ls: seq<string>): seq<string>
  {
    var k := FirstBlank(ls);
    if k < |ls| then ls[k + 1..] else []
  }

  /** `Problem::parse` on the lines of the input: initial values up to the first empty line, then gates. */
  function ParseLines(ls: seq<string>): Result<Problem>
  {
    match Load(ls[..FirstBlank(ls)], InitLine, map[])
    case Err(e) => Err(e)
    case Ok(wires) =>
      match Load(GateLines(ls), GateLine, map[])
      case Err(e) => Err(e)
      case Ok(circuit) => Ok(Problem(wires, circuit))
  }

  /**
   * `Problem::parse`: it succeeds exactly when every line before the first empty one is an
   * initial value and every line after it is a gate.
   */
  function ParseProblem(input: string): (r: Result<Problem>)
    ensures var ls := Lines(input);
      r.Ok? <==> AllParse(ls[..FirstBlank(ls)], InitLine) && AllParse(GateLines(ls), GateLine)
  {
    ParseLinesMeaning(Lines(input));
    ParseLines(Lines(input))
  }

  /**
   * Parsing succeeds exactly when every line before the first empty one is an initial
   * value and every line after it is a gate; each wire then has the value or the gate of
   * its last line.
   */
  lemma ParseLinesMeaning(ls: seq<string>)
    ensures ParseLines(ls).Ok? <==> AllParse(ls[..FirstBlank(ls)], InitLine) && AllParse(GateLines(ls), GateLine)
    ensures var init := ls[..FirstBlank(ls)];
      ParseLines(ls).Ok? ==>
        forall w, i :: LastFor(init, InitLine, w, i) ==>
          w in ParseLines(ls).value.wires && ParseLines(ls).value.wires[w] == InitLine(init[i]).value.1
    ensures var gates := GateLines(ls);
      ParseLines(ls).Ok? ==>
        forall w, i :: LastFor(gates, GateLine, w, i) ==>
          w in ParseLines(ls).value.circuit && ParseLines(ls).value.circuit[w] == GateLine(gates[i]).value.1
  {
    var init := ls[..FirstBlank(ls)];
    var gates := GateLines(ls);
    LoadMeaning(init, InitLine, map[]);
    LoadMeaning(gates, GateLine, map[]);
    if ParseLines(ls).Ok? {
      assert ParseLines(ls).value == Problem(Load(init, InitLine, map[]).value, Load(gates, GateLine, map[]).value);
    }
  }

  /** One step of the loop `for line in lines`: the entry of the line goes into the map. */
  lemma LoadStep<V>(ls: seq<string>, i: nat, k: nat, parse: string -> Result<(Wire, V)>, acc: map<Wire, V>)
    requires i < k <= |ls| && parse(ls[i]).Ok?
    ensures Load(ls[i..k], parse, acc) == Load(ls[i + 1..k], parse, acc[parse(ls[i]).value.0 := parse(ls[i]).value.1])
  {
    assert ls[i..k][0] == ls[i] && ls[i..k][1..] == ls[i + 1..k];
  }

  /** The first `for` loop: entries up to and not including the first empty line. */
  method LoadUntilBlank<V>(ls: seq<string>, parse: string -> Result<(Wire, V)>) returns (r: Result<map<Wire, V>>)
    ensures r == Load(ls[..FirstBlank(ls)], parse, map[])
  {
    var k := FirstBlank(ls);
    var m: map<Wire, V> := map[];
    var i := 0;
    while i < |ls| && ls[i] != []
      invariant i <= k
      invariant Load(ls[i..k], parse, m) == Load(ls[..k], parse, map[])
    {
      assert i < k;
      match parse(ls[i])
      case Err(e) =>
        assert ls[i..k][0] == ls[i];
        return Err(e);
      case Ok((w, v)) =>
        LoadStep(ls, i, k, parse, m);
        m := m[w := v];
      i := i + 1;
    }
    assert ls[i..k] == [];
    return Ok(m);
  }

  /** The second `for` loop: an entry for every remaining line. */
  method LoadAll<V>(ls: seq<string>, parse: string -> Result<(Wire, V)>) returns (r: Result<map<Wire, V>>)
    ensures r == Load(ls, parse, map[])
  {
    var m: map<Wire, V> := map[];
    var j := 0;
    assert ls[0..|ls|] == ls;
    while j < |ls|
      invariant j <= |ls|
      invariant Load(ls[j..|ls|], parse, m) == Load(ls, parse, map[])
    {
      match parse(ls[j])
      case Err(e) =>
        assert ls[j..|ls|][0] == ls[j];
        return Err(e);
      case Ok((w, v)) =>
        LoadStep(ls, j, |ls|, parse, m);
        m := m[w := v];
      j := j + 1;
    }
    assert ls[j..|ls|] == [];
    return Ok(m);
  }

  /** `Problem::parse`. */
  method Parse(input: string) returns (r: Result<Problem>)
    ensures r == ParseProblem(input)
  {
    var ls := Lines(input);
    var wires := LoadUntilBlank(ls, InitLine);
    if wires.Err? {
      return Err(wires.error);
    }
    var circuit := LoadAll(GateLines(ls), GateLine);
    if circuit.Err? {
      return Err(circuit.error);
    }
    return Ok(Problem(wires.value, circuit.value));
  }

  // ---------------------------------------------------------------- evaluation

  /** The value `bit` returns, or that the recursion did not end within the fuel. */
  datatype Outcome = Done(value: Option<bool>) | OutOfFuel

  /**
   * `Problem::bit`: an initial value if the wire has one; otherwise the gate that drives
   * it applied to its inputs, the first input evaluated first; `None` for a wire with
   * neither. The recursion ends only on an acyclic part of the circuit, so each nested
   * call spends one unit of `fuel`.
   */
  function Eval(p: Problem, w: Wire, fuel: nat): Outcome
    decreases fuel
  {
    if w in p.wires then Done(Some(p.wires[w]))
    else if w !in p.circuit then Done(None)
    else if fuel == 0 then OutOfFuel
    else
      var g := p.circuit[w];
      match Eval(p, g.a, fuel - 1)
      case OutOfFuel => OutOfFuel
      case Done(None) => Done(None)
      case Done(Some(a)) =>
        match Eval(p, g.b, fuel - 1)
        case OutOfFuel => OutOfFuel
        case Done(None) => Done(None)
        case Done(Some(b)) => Done(Some(GateResult(g, a, b)))
  }

  /** More fuel does not change a finished evaluation. */
  lemma {:induction false} EvalMonotone(p: Problem, w: Wire, n: nat, m: nat)
    requires n <= m && Eval(p, w, n).Done?
    ensures Eval(p, w, m) == Eval(p, w, n)
    decreases n
  {
    if w !in p.wires && w in p.circuit {
      var g := p.circuit[w];
      EvalMonotone(p, g.a, n - 1, m - 1);
      if Eval(p, g.a, n - 1) != Done(None) {
        EvalMonotone(p, g.b, n - 1, m - 1);
      }
    }
  }

  /**
   * An assignment of values to wires that agrees with the initial values and with every
   * gate on a wire without an initial value; such a wire's inputs are assigned too.
   */
  predicate Consistent(p: Problem, val: map<Wire, bool>)
  {
    forall w :: w in val ==>
      (w in p.wires ==> val[w] == p.wires[w]) &&
      (w !in p.wires ==> w in p.circuit && p.circuit[w].a in val && p.circuit[w].b in val &&
                         val[w] == GateResult(p.circuit[w], val[p.circuit[w].a], val[p.circuit[w].b]))
  }

  /** A finished evaluation of an assigned wire agrees with every consistent assignment. */
  lemma {:induction false} EvalConsistent(p: Problem, val: map<Wire, bool>, w: Wire, n: nat)
    requires Consistent(p, val) && w in val && Eval(p, w, n).Done?
    ensures Eval(p, w, n) == Done(Some(val[w]))
    decreases n
  {
    if w !in p.wires {
      var g := p.circuit[w];
      EvalConsistent(p, val, g.a, n - 1);
      EvalConsistent(p, val, g.b, n - 1);
      assert Eval(p, w, n) == Done(Some(GateResult(g, val[g.a], val[g.b])));
    }
  }

  /**
   * A rank on the gate-driven wires that grows from each gate's driven inputs to its
   * output: the circuit has no cycle.
   */
  predicate Ranked(p: Problem, rank: map<Wire, nat>)
  {
    forall w :: w in p.circuit && w !in p.wires ==>
      w in rank &&
      (p.circuit[w].a in p.circuit && p.circuit[w].a !in p.wires ==>
         p.circuit[w].a in rank && rank[p.circuit[w].a] < rank[w]) &&
      (p.circuit[w].b in p.circuit && p.circuit[w].b !in p.wires ==>
         p.circuit[w].b in rank && rank[p.circuit[w].b] < rank[w])
  }

  /** On an acyclic circuit the evaluation ends once the fuel exceeds the wire's rank. */
  lemma {:induction false} EvalTerminates(p: Problem, rank: map<Wire, nat>, w: Wire, n: nat)
    requires Ranked(p, rank)
    requires w in p.circuit && w !in p.wires ==> rank[w] < n
    ensures Eval(p, w, n).Done?
    decreases n
  {
    if w !in p.wires && w in p.circuit {
      var g := p.circuit[w];
      EvalTerminates(p, rank, g.a, n - 1);
      EvalTerminates(p, rank, g.b, n - 1);
    }
  }

  // ---------------------------------------------------------------- part one

  function DigitChar(d: nat): char
    requires d < 10
  {
    ('0' as int + d) as char
  }

  /** `Wire::parse(&format!("z{:02}", i))`, which always succeeds below one hundred. */
  function ZWire(i: nat): (w: Wire)
    requires i < 100
    ensures WireParse(w.name) == Some(w)
  {
    var name := ['z', DigitChar(i / 10), DigitChar(i % 10)];
    assert IsWireChar(name[0]) && IsWireChar(name[1]) && IsWireChar(name[2]);
    Wire(name)
  }

  /** Every output wire below `n` evaluates within the fuel. */
  predicate OutputsDone(p: Problem, n: nat, fuel: nat)
  {
    forall i :: 0 <= i < n && i < 100 ==> Eval(p, ZWire(i), fuel).Done?
  }

  /** The fold of `star1` over bits `0 .. n`, setting bit `i` when `z<i>` evaluates to true. */
  function Number(p: Problem, n: nat, fuel: nat): (r: nat)
    requires n <= 64 && OutputsDone(p, n, fuel)
    ensures r < Pow2(n)
    ensures forall i :: 0 <= i < n ==> (TestBit(r, i) <==> Eval(p, ZWire(i), fuel) == Done(Some(true)))
  {
    if n == 0 then 0
    else
      var acc := Number(p, n - 1, fuel);
      var k := n - 1;
      Pow2Monotone(k, n);
      if Eval(p, ZWire(k), fuel) == Done(Some(true)) then
        var r := Bits.Or(acc, Pow2(k));
        OrBound(acc, Pow2(k), n);
        forall i | 0 <= i < n ensures TestBit(r, i) <==> i == k || TestBit(acc, i) {
          OrBit(acc, Pow2(k), i);
          TestBitPow2(k, i);
        }
        NoHighBits(acc, k, k);
        r
      else
        NoHighBits(acc, k, k);
        acc
  }

  /** Bit `i` of `2^k` is set exactly for `i == k`. */
  lemma {:induction false} TestBitPow2(k: nat, i: nat)
    ensures TestBit(Pow2(k), i) <==> i == k
    decreases i
  {
    if i == 0 {
      TestBitZero(Pow2(k));
      if k > 0 { assert Pow2(k) == 2 * Pow2(k - 1); }
    } else {
      TestBitHalf(Pow2(k), i - 1);
      if k == 0 {
        assert Pow2(0) / 2 == 0;
        assert 0 / Pow2(i - 1) == 0;
      } else {
        assert Pow2(k) / 2 == Pow2(k - 1);
        TestBitPow2(k - 1, i - 1);
      }
    }
  }

  /** `star1`: the 64-bit number whose bit `i` is set exactly when `z<i>` is true. */
  function Star1(p: Problem, fuel: nat): (r: nat)
    requires OutputsDone(p, 64, fuel)
    ensures r < U64_LIMIT
    ensures forall i :: 0 <= i < 64 ==> (TestBit(r, i) <==> Eval(p, ZWire(i), fuel) == Done(Some(true)))
  {
    assert Pow2(64) == U64_LIMIT by { Pow2Value64(); }
    Number(p, 64, fuel)
  }

  // ---------------------------------------------------------------- the first sample

  /** The first sample: `x = 111`, `y = 010` in binary, one gate per output bit. */
  function Sample1(): Problem
  {
    Problem(
      map[Wire("x00") := true, Wire("x01") := true, Wire("x02") := true,
          Wire("y00") := false, Wire("y01") := true, Wire("y02") := false],
      map[Wire("z00") := Gate(And, Wire("x00"), Wire("y00")),
          Wire("z01") := Gate(Xor, Wire("x01"), Wire("y01")),
          Wire("z02") := Gate(Or, Wire("x02"), Wire("y02"))])
  }

  /** On the first sample `z02` is true, `z00` and `z01` are false, and no higher `z` wire exists. */
  lemma Sample1Z(i: nat)
    requires i < 64
    ensures Eval(Sample1(), ZWire(i), 1) == Done(if i == 2 then Some(true) else if i < 2 then Some(false) else None)
  {
    var p := Sample1();
    var w := ZWire(i);
    if i >= 3 {
      assert w.name[0] == 'z' && (w.name[1] != '0' || w.name[2] !in {'0', '1', '2'});
      assert w !in p.wires && w !in p.circuit;
    } else if i == 0 {
      assert w == Wire("z00");
    } else if i == 1 {
      assert w == Wire("z01");
    } else {
      assert w == Wire("z02");
    }
  }

  /** `star1` is the number whose bits below 64 are the outputs that evaluate to true. */
  lemma Star1Is(p: Problem, fuel: nat, v: nat)
    requires OutputsDone(p, 64, fuel) && v < Pow2(64)
    requires forall i :: 0 <= i < 64 ==> (TestBit(v, i) <==> Eval(p, ZWire(i), fuel) == Done(Some(true)))
    ensures Star1(p, fuel) == v
  {
    var r := Star1(p, fuel);
    assert Pow2(64) == U64_LIMIT by { Pow2Value64(); }
    forall i | 0 <= i < 64 ensures TestBit(r, i) == TestBit(v, i) {
    }
    BitsDetermine(r, v, 64);
  }

  /** On the first sample only `z02` is true, so part one gives 4. */
  lemma Sample1Star1()
    ensures OutputsDone(Sample1(), 64, 1) && Star1(Sample1(), 1) == 4
  {
    var p := Sample1();
    forall i | 0 <= i < 64
      ensures Eval(p, ZWire(i), 1) == Done(if i == 2 then Some(true) else if i < 2 then Some(false) else None)
    {
      Sample1Z(i);
    }
    assert Pow2(2) == 4;
    forall i | 0 <= i < 64 ensures TestBit(4, i) <==> Eval(p, ZWire(i), 1) == Done(Some(true)) {
      TestBitPow2(2, i);
    }
    Pow2Monotone(3, 64);
    Star1Is(p, 1, 4);
  }
}

/**
 * Day 21: keypad conundrum. A human presses keys on a directional keypad that steers a
 * robot standing at a second directional keypad, which steers a robot at a third, which
 * in turn steers a robot at the numeric keypad of a door. Only the simulator of such a
 * chain of robots exists in this day's code (its puzzle answers are stubs); it is
 * modelled here, with the robots' positions as `u16` values written back in place.
 */
module Day21 {
  import opened Wrappers
  import opened Bits

  /** The door keypad, row by row, three keys wide; '*' is the gap where no key is. */
  const NUMPAD: string := "789456123*0A"

  /** The directional keypad, row by row, three keys wide; '*' is the gap. */
  const DIRPAD: string := "*^A<v>"

  /** What pressing a key does to a robot: nothing legal, a move, or pressing its key. */
  datatype PushResult = Invalid | Valid | Ack(c: char)

  /** A robot at `q` stands on a key of `keypad`, not beyond its end nor on its gap. */
  predicate OnKey(q: nat, keypad: string)
  {
    q < |keypad| && keypad[q] != '*'
  }

  /** The column and row step a direction key asks for; none for any other key. */
  function Delta(c: char): Option<(int, int)>
  {
    match c
    case '>' => Some((1, 0))
    case '<' => Some((-1, 0))
    case '^' => Some((0, -1))
    case 'v' => Some((0, 1))
    case _ => None
  }

  /**
   * On a keypad three keys wide, where position `p` is column `p % 3` of row `p / 3`,
   * direction key `c` takes a robot at `p` to position `q`.
   */
  predicate Moves(p: nat, q: nat, c: char)
  {
    match Delta(c)
    case None => false
    case Some(d) => q % 3 == p % 3 + d.0 && q / 3 == p / 3 + d.1
  }

  /** A move determines the position it reaches. */
  lemma MovesUnique(p: nat, q1: nat, q2: nat, c: char)
    requires Moves(p, q1, c) && Moves(p, q2, c)
    ensures q1 == q2
  {
    Cell(q1);
    Cell(q2);
  }

  /** A position is rebuilt from its column and row. */
  lemma Cell(q: nat)
    ensures q == q % 3 + 3 * (q / 3)
  {
  }

  /**
   * `push` panics when it indexes past the keypad on 'A' and when the `u16` target
   * position overflows, which happens for '>' only at 65535 and for 'v' from 65533 on.
   */
  predicate PushSafe(p: nat, keypad: string, c: char)
  {
    p < U16_LIMIT
    && (c == 'A' ==> p < |keypad|)
    && (c == '>' ==> p + 1 < U16_LIMIT)
    && (c == 'v' ==> p + 3 < U16_LIMIT)
  }

  /**
   * `push`: the result of pressing `c` for a robot at `p` on `keypad`, and the robot's
   * position afterwards (the value written back through its `&mut u16`). 'A' presses
   * the key the robot stands on; a direction key moves it when the target is a key;
   * anything else, and a move off the keypad or onto the gap, is refused in place.
   */
  function Push(p: nat, keypad: string, c: char): (r: (PushResult, nat))
    requires PushSafe(p, keypad, c)
    ensures r.0.Ack? <==> c == 'A'
    ensures c == 'A' ==> r == (Ack(keypad[p]), p)
    ensures r.0 == Valid ==> OnKey(r.1, keypad) && r.1 < U16_LIMIT
    ensures r.0 == Invalid ==> r.1 == p
  {
    if c == 'A' then (Ack(keypad[p]), p)
    else
      match Target(p, c)
      case None => (Invalid, p)
      case Some(q) => if q < |keypad| && keypad[q] != '*' then (Valid, q) else (Invalid, p)
  }

  /**
   * What `push` does with a direction key, in terms of the keypad's geometry: it moves
   * the robot exactly when the square the key points at holds a key, and then moves it
   * there; otherwise it refuses and the robot stays.
   */
  lemma PushMoves(p: nat, keypad: string, c: char)
    requires PushSafe(p, keypad, c) && c != 'A'
    ensures Push(p, keypad, c).0 == Valid <==> exists q :: Moves(p, q, c) && OnKey(q, keypad)
    ensures Push(p, keypad, c).0 == Valid ==> Moves(p, Push(p, keypad, c).1, c)
    ensures Push(p, keypad, c).0 == Invalid ==> forall q :: Moves(p, q, c) ==> !OnKey(q, keypad)
  {
    TargetMoves(p, c);
    match Target(p, c)
    case None =>
    case Some(q) =>
      forall q' | Moves(p, q', c) ensures q' == q { MovesUnique(p, q', q, c); }
  }

  /**
   * The middle of `push`: the position a direction key aims the robot at, from its
   * column `p % 3` and row `p / 3`; none when it would leave the left, right or top
   * edge, or for a key that is not a direction.
   */
  function Target(p: nat, c: char): (t: Option<nat>)
    requires p < U16_LIMIT
    requires c == '>' ==> p + 1 < U16_LIMIT
    requires c == 'v' ==> p + 3 < U16_LIMIT
    ensures t.Some? ==> t.value < U16_LIMIT
  {
    var x, y := p % 3, p / 3;
    match c
    case '>' => if x < 2 then (Aim(p, x + 1, y, c); Some(At(x + 1, y))) else None
    case '<' => if x > 0 then (Aim(p, x - 1, y, c); Some(At(x - 1, y))) else None
    case '^' => if y > 0 then (Aim(p, x, y - 1, c); Some(At(x, y - 1))) else None
    case 'v' => Aim(p, x, y + 1, c); Some(At(x, y + 1))
    case _ => None
  }

  /** The target is where the key points, and there is none exactly when it points off the keypad. */
  lemma TargetMoves(p: nat, c: char)
    requires p < U16_LIMIT
    requires c == '>' ==> p + 1 < U16_LIMIT
    requires c == 'v' ==> p + 3 < U16_LIMIT
    ensures Target(p, c).Some? ==> Moves(p, Target(p, c).value, c)
    ensures Target(p, c).None? ==> forall q :: !Moves(p, q, c)
  {
    var x, y := p % 3, p / 3;
    match c
    case '>' => if x < 2 { Aim(p, x + 1, y, c); }
    case '<' => if x > 0 { Aim(p, x - 1, y, c); }
    case '^' => if y > 0 { Aim(p, x, y - 1, c); }
    case 'v' => Aim(p, x, y + 1, c);
    case _ =>
  }

  /** Column `x` of row `y` is where direction key `c` takes a robot at `p`. */
  lemma Aim(p: nat, x: nat, y: nat, c: char)
    requires x < 3 && Delta(c).Some?
    requires x == p % 3 + Delta(c).value.0 && y == p / 3 + Delta(c).value.1
    ensures Moves(p, At(x, y), c) && At(x, y) == p + Delta(c).value.0 + 3 * Delta(c).value.1
  {
    Cell(p);
    AtCell(x, y);
  }

  /** The position of column `x` in row `y`. */
  function At(x: nat, y: nat): nat
  {
    x + 3 * y
  }

  /** A position's column and row are read back from it. */
  lemma AtCell(x: nat, y: nat)
    requires x < 3
    ensures At(x, y) % 3 == x && At(x, y) / 3 == y
  {
  }

  /**
   * `push_chain` over robots at `ps` on keypads `pads` never panics: each robot that is
   * reached is pressed safely.
   */
  predicate ChainSafe(c: char, ps: seq<nat>, pads: seq<string>)
    requires |ps| == |pads|
    decreases |ps|
  {
    |ps| == 0
    || (PushSafe(ps[0], pads[0], c)
        && (Push(ps[0], pads[0], c).0.Ack? ==> ChainSafe(Push(ps[0], pads[0], c).0.c, ps[1..], pads[1..])))
  }

  /**
   * `push_chain`, as a value: the key `c` goes to the first robot; each robot whose
   * press acknowledges a key passes that key on to the next; the first result that is
   * not an acknowledgement ends the chain, and an acknowledgement from the last robot
   * is the chain's own.
   */
  function Chain(c: char, ps: seq<nat>, pads: seq<string>): (r: (PushResult, seq<nat>))
    requires |ps| == |pads| && ChainSafe(c, ps, pads)
    ensures |r.1| == |ps|
    decreases |ps|
  {
    if |ps| == 0 then (Ack(c), [])
    else
      var (r, q) := Push(ps[0], pads[0], c);
      if r.Ack? then
        var (r', qs) := Chain(r.c, ps[1..], pads[1..]);
        (r', [q] + qs)
      else (r, [q] + ps[1..])
  }

  /**
   * The shape of a chained press: when the chain acknowledges, no robot has moved and
   * the key acknowledged is the one the last robot stands on; otherwise at most one
   * robot has moved, and only when the press was valid, onto a key of its keypad.
   */
  lemma {:induction false} ChainShape(c: char, ps: seq<nat>, pads: seq<string>)
    requires |ps| == |pads| && ChainSafe(c, ps, pads)
    ensures Chain(c, ps, pads).0.Ack? ==> Chain(c, ps, pads).1 == ps
    ensures Chain(c, ps, pads).0.Ack? && |ps| > 0 ==>
      ps[|ps| - 1] < |pads[|ps| - 1]| && Chain(c, ps, pads).0.c == pads[|ps| - 1][ps[|ps| - 1]]
    ensures forall i :: 0 <= i < |ps| && Chain(c, ps, pads).1[i] != ps[i] ==>
      Chain(c, ps, pads).0 == Valid && OnKey(Chain(c, ps, pads).1[i], pads[i])
      && forall j :: 0 <= j < |ps| && j != i ==> Chain(c, ps, pads).1[j] == ps[j]
    decreases |ps|
  {
    if |ps| > 0 {
      var (r, q) := Push(ps[0], pads[0], c);
      if r.Ack? {
        ChainShape(r.c, ps[1..], pads[1..]);
      }
    }
  }

  /** A robot that acknowledges hands its key on to the rest of the chain and stays put. */
  lemma ChainPasses(c: char, ps: seq<nat>, pads: seq<string>, i: nat)
    requires |ps| == |pads| && i < |ps| && ChainSafe(c, ps[i..], pads[i..])
    requires PushSafe(ps[i], pads[i], c) && c == 'A'
    ensures ChainSafe(pads[i][ps[i]], ps[i + 1..], pads[i + 1..])
    ensures Chain(c, ps[i..], pads[i..]) ==
      (Chain(pads[i][ps[i]], ps[i + 1..], pads[i + 1..]).0, [ps[i]] + Chain(pads[i][ps[i]], ps[i + 1..], pads[i + 1..]).1)
  {
    assert ps[i..][0] == ps[i] && pads[i..][0] == pads[i];
    assert ps[i..][1..] == ps[i + 1..] && pads[i..][1..] == pads[i + 1..];
  }

  /** A robot that does not acknowledge ends the rest of the chain. */
  lemma ChainStops(c: char, ps: seq<nat>, pads: seq<string>, i: nat)
    requires |ps| == |pads| && i < |ps| && ChainSafe(c, ps[i..], pads[i..])
    requires PushSafe(ps[i], pads[i], c) && !Push(ps[i], pads[i], c).0.Ack?
    ensures Chain(c, ps[i..], pads[i..]) == (Push(ps[i], pads[i], c).0, [Push(ps[i], pads[i], c).1] + ps[i + 1..])
  {
    assert ps[i..][0] == ps[i] && pads[i..][0] == pads[i] && ps[i..][1..] == ps[i + 1..];
  }

  lemma Splice(ps: seq<nat>, i: nat, q: nat)
    requires i < |ps|
    ensures ps[..i] + ([q] + ps[i + 1..]) == ps[i := q]
  {
  }

  /**
   * `push_chain`: presses `c0` for the robots at `robots`, on keypads `pads`, updating
   * the robot that moves in place.
   */
  method PushChain(c0: char, robots: array<nat>, pads: seq<string>) returns (r: PushResult)
    requires robots.Length == |pads| && ChainSafe(c0, robots[..], pads)
    modifies robots
    ensures (r, robots[..]) == Chain(c0, old(robots[..]), pads)
  {
    ghost var ps := robots[..];
    var c := c0;
    var i := 0;
    assert ps[..0] + Chain(c0, ps, pads).1 == Chain(c0, ps, pads).1 && ps[0..] == ps && pads[0..] == pads;
    while i < robots.Length
      invariant 0 <= i <= robots.Length && robots[..] == ps
      invariant ChainSafe(c, ps[i..], pads[i..])
      invariant Chain(c0, ps, pads) == (Chain(c, ps[i..], pads[i..]).0, ps[..i] + Chain(c, ps[i..], pads[i..]).1)
    {
      var (res, q) := Push(robots[i], pads[i], c);
      if !res.Ack? {
        robots[i] := q;
        ChainStops(c, ps, pads, i);
        Splice(ps, i, q);
        assert Chain(c0, ps, pads) == (res, ps[..i] + ([q] + ps[i + 1..]));
        assert robots[..] == ps[i := q];
        return res;
      }
      ChainPasses(c, ps, pads, i);
      Regroup(ps, i, Chain(res.c, ps[i + 1..], pads[i + 1..]).1);
      c := res.c;
      i := i + 1;
    }
    assert ps[i..] == [] && pads[i..] == [] && ps[..i] == ps;
    assert Chain(c, ps[i..], pads[i..]) == (Ack(c), []);
    assert ps[..i] + [] == ps;
    r := Ack(c);
  }

  lemma Regroup(ps: seq<nat>, i: nat, t: seq<nat>)
    requires i < |ps|
    ensures ps[..i] + ([ps[i]] + t) == ps[..i + 1] + t
  {
    assert ps[..i + 1] == ps[..i] + [ps[i]];
  }

  /** The state of the chain: the numeric keys typed so far and the three robots. */
  datatype State = State(keys: seq<char>, ikey: nat, r0: nat, r1: nat, r2: nat)

  /** The buffer of typed keys holds eight bytes. */
  const KEY_CAPACITY: nat := 8

  /** The keypads of the three robots, from the one the human steers to the door's. */
  const PADS: seq<string> := [DIRPAD, DIRPAD, NUMPAD]

  function Robots(s: State): seq<nat>
  {
    [s.r0, s.r1, s.r2]
  }

  /**
   * Every state the simulator reaches: the eight-byte buffer, at most eight keys typed,
   * each a key of the numeric keypad, and every robot standing on a key of its keypad.
   */
  predicate Consistent(s: State)
  {
    |s.keys| == KEY_CAPACITY && s.ikey <= KEY_CAPACITY
    && OnKey(s.r0, DIRPAD) && OnKey(s.r1, DIRPAD) && OnKey(s.r2, NUMPAD)
    && forall i :: 0 <= i < s.ikey ==> s.keys[i] in NUMPAD && s.keys[i] != '*'
  }

  /** The first position of `k` on `keypad`, as `str::find` gives it. */
  predicate FirstOf(keypad: string, q: nat, k: char)
  {
    q < |keypad| && keypad[q] == k && forall i :: 0 <= i < q ==> keypad[i] != k
  }

  /** `State::new`: nothing typed yet, and every robot aimed at the 'A' of its keypad. */
  function New(): (s: State)
    ensures Consistent(s) && s.ikey == 0
    ensures FirstOf(DIRPAD, s.r0, 'A') && FirstOf(DIRPAD, s.r1, 'A') && FirstOf(NUMPAD, s.r2, 'A')
  {
    State(seq(KEY_CAPACITY, _ => '\0'), 0, 2, 2, 11)
  }

  /** `State::str`: the keys typed so far. */
  function Str(s: State): (r: string)
    requires s.ikey <= |s.keys|
    ensures |r| == s.ikey && forall i :: 0 <= i < s.ikey ==> r[i] == s.keys[i]
  {
    s.keys[..s.ikey]
  }

  /**
   * `State::step` does not panic: the chain is pressed safely and, when the door robot
   * acknowledges, there is room left in the buffer.
   */
  predicate StepSafe(s: State, c0: char)
  {
    ChainSafe(c0, Robots(s), PADS)
    && (Chain(c0, Robots(s), PADS).0.Ack? ==> s.ikey < |s.keys|)
  }

  /** In a consistent state every key runs down the chain without a panic. */
  lemma ConsistentSafe(s: State, c0: char)
    requires Consistent(s)
    ensures ChainSafe(c0, Robots(s), PADS)
  {
    var ps := Robots(s);
    var r0 := Push(s.r0, DIRPAD, c0);
    if r0.0.Ack? {
      var r1 := Push(s.r1, DIRPAD, r0.0.c);
      assert ps[1..] == [s.r1, s.r2] && PADS[1..] == [DIRPAD, NUMPAD];
      if r1.0.Ack? {
        assert ps[1..][1..] == [s.r2] && PADS[1..][1..] == [NUMPAD];
        assert PushSafe(s.r2, NUMPAD, r1.0.c);
        assert ChainSafe(r1.0.c, [s.r2], [NUMPAD]);
      }
    }
  }

  /**
   * `State::step`, as a value: the key pressed by the human runs down the chain; a refusal
   * anywhere is `None`; an acknowledgement from the door robot types the numeric key it
   * stands on, and everything else only moves the robot that moved.
   */
  function Next(s: State, c0: char): (r: Option<State>)
    requires StepSafe(s, c0)
  {
    var (res, ps) := Chain(c0, Robots(s), PADS);
    match res
    case Ack(c) => Some(State(s.keys[s.ikey := c], s.ikey + 1, ps[0], ps[1], ps[2]))
    case Valid => Some(State(s.keys, s.ikey, ps[0], ps[1], ps[2]))
    case Invalid => None
  }

  /**
   * What a step does: it fails exactly when the chain refuses the key; otherwise the
   * robots are where the chain left them and the door robot's acknowledgement, if any,
   * types the numeric key it stands on; and a step keeps a state consistent.
   */
  lemma NextShape(s: State, c0: char)
    requires StepSafe(s, c0)
    ensures Next(s, c0).None? <==> Chain(c0, Robots(s), PADS).0 == Invalid
    ensures Next(s, c0).Some? ==>
      |Next(s, c0).value.keys| == |s.keys| && Robots(Next(s, c0).value) == Chain(c0, Robots(s), PADS).1
    ensures Next(s, c0).Some? && s.ikey <= |s.keys| ==>
      Next(s, c0).value.ikey <= |Next(s, c0).value.keys|
      && Str(Next(s, c0).value) == Str(s) + (if Chain(c0, Robots(s), PADS).0.Ack? then [Chain(c0, Robots(s), PADS).0.c] else [])
    ensures Chain(c0, Robots(s), PADS).0.Ack? ==> s.r2 < |NUMPAD| && Chain(c0, Robots(s), PADS).0.c == NUMPAD[s.r2]
    ensures Next(s, c0).Some? && Consistent(s) ==> Consistent(Next(s, c0).value)
  {
    var (res, ps) := Chain(c0, Robots(s), PADS);
    ChainShape(c0, Robots(s), PADS);
    assert Robots(s)[2] == s.r2 && PADS[2] == NUMPAD;
    match res
    case Ack(c) =>
      var t := Next(s, c0).value;
      if s.ikey <= |s.keys| {
        assert Str(t) == Str(s) + [c];
      }
    case Valid =>
      var t := Next(s, c0).value;
      if Consistent(s) {
        assert OnKey(ps[0], PADS[0]) && OnKey(ps[1], PADS[1]) && OnKey(ps[2], PADS[2]) by {
          forall i | 0 <= i < 3 ensures OnKey(ps[i], PADS[i]) {
            if ps[i] == Robots(s)[i] {
              assert OnKey(Robots(s)[i], PADS[i]);
            }
          }
        }
      }
    case Invalid =>
  }

  /**
   * A step types a key exactly when the human presses 'A' while the first two robots
   * both stand on 'A', so that the press reaches the door robot as an 'A' too.
   */
  lemma NextTypes(s: State, c0: char)
    requires Consistent(s) && StepSafe(s, c0)
    ensures Chain(c0, Robots(s), PADS).0.Ack? <==> c0 == 'A' && DIRPAD[s.r0] == 'A' && DIRPAD[s.r1] == 'A'
  {
    var ps := Robots(s);
    assert ps[1..] == [s.r1, s.r2] && PADS[1..] == [DIRPAD, NUMPAD];
    assert ps[1..][1..] == [s.r2] && PADS[1..][1..] == [NUMPAD];
    assert ps[1..][1..][1..] == [] && PADS[1..][1..][1..] == [];
    if c0 == 'A' {
      assert Chain(c0, ps, PADS) == (Chain(DIRPAD[s.r0], ps[1..], PADS[1..]).0, [s.r0] + Chain(DIRPAD[s.r0], ps[1..], PADS[1..]).1);
      if DIRPAD[s.r0] == 'A' {
        var e := DIRPAD[s.r1];
        assert Chain('A', ps[1..], PADS[1..]).0 == Chain(e, [s.r2], [NUMPAD]).0;
        assert Chain(e, [s.r2], [NUMPAD]).0 == Push(s.r2, NUMPAD, e).0;
      }
    }
  }

  /** Any key but 'A' goes no further than the first robot, which moves or refuses it. */
  lemma NextSteers(s: State, c0: char)
    requires Consistent(s) && c0 != 'A'
    ensures StepSafe(s, c0)
    ensures Next(s, c0) ==
      if Push(s.r0, DIRPAD, c0).0 == Valid then Some(s.(r0 := Push(s.r0, DIRPAD, c0).1)) else None
  {
    ConsistentSafe(s, c0);
    assert Robots(s)[1..] == [s.r1, s.r2];
  }

  /** From the start, pressing 'A' at once types the 'A' the door robot is aimed at. */
  lemma FirstPressTypesA()
    ensures StepSafe(New(), 'A') && Next(New(), 'A').Some? && Str(Next(New(), 'A').value) == "A"
  {
    NextTypes(New(), 'A');
    NextShape(New(), 'A');
  }

  /**
   * From the start, '<' aims the first robot at '^'; 'A' then sends the second robot up
   * from 'A', off the top of its keypad, and the press is refused.
   */
  lemma UpFromTheTopIsRefused()
    ensures Next(New(), '<') == Some(New().(r0 := 1))
    ensures StepSafe(New().(r0 := 1), 'A') && Next(New().(r0 := 1), 'A') == None
  {
    NextSteers(New(), '<');
    var s := New().(r0 := 1);
    ConsistentSafe(s, 'A');
    assert Robots(s)[1..] == [s.r1, s.r2];
    NextTypes(s, 'A');
  }

  /**
   * `State::step`: copies the state, presses `c0` down the chain of its three robots and,
   * when the door robot acknowledges a key, appends that key to the buffer.
   */
  method Step(s: State, c0: char) returns (r: Option<State>)
    requires StepSafe(s, c0)
    ensures r == Next(s, c0)
  {
    var robots := new nat[3][s.r0, s.r1, s.r2];
    assert robots[..] == Robots(s);
    var res := PushChain(c0, robots, PADS);
    var next := State(s.keys, s.ikey, robots[0], robots[1], robots[2]);
    match res
    case Ack(c) =>
      next := next.(keys := next.keys[next.ikey := c], ikey := next.ikey + 1);
      return Some(next);
    case Valid =>
      return Some(next);
    case Invalid =>
      return None;
  }

  /** Keys a consistent state can take one after another without a panic (nine typed keys would overflow the buffer). */
  predicate Presses(s: State, cs: string)
    requires Consistent(s)
    decreases |cs|
  {
    |cs| == 0
    || (StepSafe(s, cs[0]) && (NextShape(s, cs[0]); Next(s, cs[0]).Some? ==> Presses(Next(s, cs[0]).value, cs[1..])))
  }

  /**
   * The worked example's `run`: press every key in turn, stopping at the first refusal.
   * Keys once typed stay typed: the text only grows.
   */
  function Run(s: State, cs: string): (r: Option<State>)
    requires Consistent(s) && Presses(s, cs)
    ensures r.Some? ==> Consistent(r.value) && Str(s) <= Str(r.value)
    decreases |cs|
  {
    if |cs| == 0 then Some(s)
    else
      NextShape(s, cs[0]);
      match Next(s, cs[0])
      case None => None
      case Some(t) => Run(t, cs[1..])
  }
}

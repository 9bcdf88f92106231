/**
 * Day 19: towel designs. The first line lists the towel patterns; every later design
 * counts when it can be written as a sequence of patterns. The search grows the set of
 * positions of a design reached by a sequence of patterns, depth first from 0.
 */
module Day19 {
  import opened Wrappers
  import opened Text

  /** `LenToPats`: the patterns grouped by their length. */
  type LenToPats = map<nat, set<string>>

  /** `w` is one of the patterns in `ltp`. */
  predicate InPats(ltp: LenToPats, w: string)
  {
    |w| in ltp && w in ltp[|w|]
  }

  /** `len_to_pats`: every pattern filed under its length. */
  function LenToPatsOf(pats: seq<string>): (m: LenToPats)
    ensures forall l :: l in m ==> forall w :: w in m[l] ==> |w| == l
  {
    if pats == [] then map[]
    else
      var m := LenToPatsOf(pats[..|pats| - 1]);
      var pat := pats[|pats| - 1];
      if |pat| in m then m[|pat| := m[|pat|] + {pat}] else m[|pat| := {pat}]
  }

  /** The patterns found by length are exactly the listed ones. */
  lemma {:induction false} LenToPatsMeaning(pats: seq<string>, w: string)
    ensures InPats(LenToPatsOf(pats), w) <==> w in pats
  {
    if pats != [] {
      var init := pats[..|pats| - 1];
      LenToPatsMeaning(init, w);
      assert pats == init + [pats[|pats| - 1]];
    }
  }

  /** `len_to_pats` of the first line: the patterns found are exactly its pieces between `", "`. */
  function ParsePatterns(line: string): (r: LenToPats)
    ensures forall w :: InPats(r, w) <==> w in SplitStr(line, ", ")
  {
    var pats := SplitStr(line, ", ");
    forall w ensures InPats(LenToPatsOf(pats), w) <==> w in pats {
      LenToPatsMeaning(pats, w);
    }
    LenToPatsOf(pats)
  }

  // ---------------------------------------------------------------- the specification

  /** `s` is a sequence of patterns, the last one not empty. */
  ghost predicate Built(s: string, ltp: LenToPats)
    decreases |s|
  {
    s == [] || exists k :: 0 <= k < |s| && InPats(ltp, s[k..]) && Built(s[..k], ltp)
  }

  /**
   * What `design_possible` decides: a non-empty design is a sequence of patterns; the
   * empty design counts only when the empty pattern is listed.
   */
  ghost predicate Possible(design: string, ltp: LenToPats)
  {
    if design == [] then InPats(ltp, []) else Built(design, ltp)
  }

  // ---------------------------------------------------------------- the search

  /** Every pattern at `p` leads to a reached position before the end. */
  ghost predicate Expanded(design: string, ltp: LenToPats, vis: set<nat>, p: nat)
    requires p <= |design|
  {
    forall q :: p <= q <= |design| && InPats(ltp, design[p..q]) ==> q in vis && q != |design|
  }

  /** The invariant of the search: reached positions are built, and those off the stack are expanded. */
  ghost predicate SearchInv(design: string, ltp: LenToPats, vis: set<nat>, poss: seq<nat>)
  {
    0 in vis
    && (forall q :: q in vis ==> (q == 0 || q < |design|) && q <= |design| && Built(design[..q], ltp))
    && (forall i :: 0 <= i < |poss| ==> poss[i] in vis)
    && (forall i, j :: 0 <= i < j < |poss| ==> poss[i] != poss[j])
    && (forall q :: q in vis && q !in poss ==> Expanded(design, ltp, vis, q))
  }

  /** A set of positions below `n` has at most `n` members. */
  lemma {:induction false} BoundedCard(s: set<nat>, n: nat)
    requires forall q :: q in s ==> q < n
    ensures |s| <= n
  {
    if n > 0 {
      BoundedCard(s - {n - 1}, n - 1);
    } else {
      assert s == {};
    }
  }

  /** A built prefix followed by a pattern is built. */
  lemma BuiltStep(design: string, ltp: LenToPats, p: nat, q: nat)
    requires p < q <= |design| && Built(design[..p], ltp) && InPats(ltp, design[p..q])
    ensures Built(design[..q], ltp)
  {
    var s := design[..q];
    assert s[p..] == design[p..q] && s[..p] == design[..p];
  }

  /** With every reached position expanded, every built prefix was reached before the end. */
  lemma {:induction false} ClosedReachesBuilt(design: string, ltp: LenToPats, vis: set<nat>, q: nat)
    requires 0 in vis && forall p :: p in vis ==> p <= |design| && Expanded(design, ltp, vis, p)
    requires 0 < q <= |design| && Built(design[..q], ltp)
    ensures q in vis && q != |design|
    decreases q
  {
    var s := design[..q];
    var k :| 0 <= k < q && InPats(ltp, s[k..]) && Built(s[..k], ltp);
    assert s[k..] == design[k..q] && s[..k] == design[..k];
    if k > 0 {
      ClosedReachesBuilt(design, ltp, vis, k);
    }
    assert Expanded(design, ltp, vis, k);
  }

  /** When the stack runs empty without reaching the end, the design is not possible. */
  lemma ClosedNotPossible(design: string, ltp: LenToPats, vis: set<nat>)
    requires SearchInv(design, ltp, vis, [])
    ensures !Possible(design, ltp)
  {
    if design == [] {
      assert Expanded(design, ltp, vis, 0);
    } else if Built(design, ltp) {
      assert design[..|design|] == design;
      ClosedReachesBuilt(design, ltp, vis, |design|);
    }
  }

  /** Reaching a new position and stacking it keeps the invariant. */
  lemma PushInv(design: string, ltp: LenToPats, vis: set<nat>, poss: seq<nat>, p: nat, q: nat)
    requires SearchInv(design, ltp, vis, poss + [p])
    requires q !in vis && q < |design| && Built(design[..q], ltp)
    ensures SearchInv(design, ltp, vis + {q}, poss + [q] + [p])
  {
    var before, vis', poss' := poss + [p], vis + {q}, poss + [q] + [p];
    assert forall i :: 0 <= i < |poss| ==> poss'[i] == before[i];
    assert poss'[|poss|] == q && poss'[|poss| + 1] == p == before[|poss|];
    forall r | r in vis' && r !in poss'
      ensures Expanded(design, ltp, vis', r)
    {
      assert r in vis && r !in before;
    }
  }

  /** Once the popped position is expanded, it may leave the stack. */
  lemma PopInv(design: string, ltp: LenToPats, vis: set<nat>, poss: seq<nat>, p: nat)
    requires SearchInv(design, ltp, vis, poss + [p]) && p <= |design|
    requires Expanded(design, ltp, vis, p)
    ensures SearchInv(design, ltp, vis, poss)
  {
    assert forall i :: 0 <= i < |poss| ==> poss[i] == (poss + [p])[i];
  }

  /** A pattern that ends the design at a reached position makes the design possible. */
  lemma ReachEnd(design: string, ltp: LenToPats, p: nat)
    requires p <= |design| && (p == 0 || p < |design|) && Built(design[..p], ltp)
    requires InPats(ltp, design[p..])
    ensures Possible(design, ltp)
  {
    assert design[..|design|] == design;
    if design != [] {
      BuiltStep(design, ltp, p, |design|);
    }
  }

  /**
   * The body of the search loop in `design_possible`: try every pattern length at `p`, in
   * increasing order, stacking each new position reached; `found` when one reaches the end.
   */
  method Expand(design: string, ltp: LenToPats, vis: set<nat>, poss: seq<nat>, p: nat)
    returns (found: bool, vis': set<nat>, poss': seq<nat>)
    requires SearchInv(design, ltp, vis, poss + [p]) && p in vis && p !in poss
    ensures found ==> Possible(design, ltp)
    ensures !found ==> SearchInv(design, ltp, vis', poss' + [p]) && Expanded(design, ltp, vis', p)
    ensures !found ==> vis <= vis' && |vis'| >= |vis| && (|vis'| == |vis| ==> poss' == poss)
  {
    vis', poss' := vis, poss;
    var work := design[p..];
    for l := 0 to |work| + 1
      invariant vis <= vis' && p in vis' && p !in poss'
      invariant SearchInv(design, ltp, vis', poss' + [p])
      invariant forall q :: p <= q < p + l && InPats(ltp, design[p..q]) ==> q in vis' && q != |design|
      invariant |vis'| >= |vis| && (|vis'| == |vis| ==> poss' == poss)
    {
      var cur := work[0..l];
      assert cur == design[p..p + l];
      if l in ltp && cur in ltp[l] {
        var q := p + l;
        if q == |design| {
          assert design[p..] == cur;
          ReachEnd(design, ltp, p);
          return true, vis', poss';
        } else if q !in vis' {
          BuiltStep(design, ltp, p, q);
          PushInv(design, ltp, vis', poss', p, q);
          vis' := vis' + {q};
          poss' := poss' + [q];
        }
      }
    }
    return false, vis', poss';
  }

  /** `design_possible`: a depth-first search over the reached positions. */
  method DesignPossible(design: string, ltp: LenToPats) returns (b: bool)
    ensures b <==> Possible(design, ltp)
  {
    var vis: set<nat> := {0};
    var poss: seq<nat> := [0];
    assert design[..0] == [];
    while poss != []
      invariant SearchInv(design, ltp, vis, poss)
      decreases |design| + 1 - |vis|, |poss|
    {
      BoundedCard(vis, |design| + 1);
      ghost var stack := poss;
      var p := poss[|poss| - 1];
      poss := poss[..|poss| - 1];
      assert poss + [p] == stack;
      var found;
      found, vis, poss := Expand(design, ltp, vis, poss, p);
      if found {
        return true;
      }
      PopInv(design, ltp, vis, poss, p);
    }
    ClosedNotPossible(design, ltp, vis);
    return false;
  }

  // ---------------------------------------------------------------- part one

  /** How many of `designs` are possible. */
  ghost function CountPossible(designs: seq<string>, ltp: LenToPats): (n: nat)
    ensures n <= |designs|
  {
    if designs == [] then 0
    else CountPossible(designs[..|designs| - 1], ltp) + (if Possible(designs[|designs| - 1], ltp) then 1 else 0)
  }

  /**
   * `star1`: the patterns come from the first line, the second line is skipped, and every
   * later line is a design; fewer than two lines is an error.
   */
  method Star1(input: string) returns (r: Result<nat>)
    ensures |Lines(input)| < 2 <==> r == Err("invalid input")
    ensures r.Ok? ==> r.value == CountPossible(Lines(input)[2..], ParsePatterns(Lines(input)[0]))
  {
    var lines := Lines(input);
    if |lines| < 1 {
      return Err("invalid input");
    }
    var ltp := ParsePatterns(lines[0]);
    if |lines| < 2 {
      return Err("invalid input");
    }
    var designs := lines[2..];
    var n := 0;
    for i := 0 to |designs|
      invariant n == CountPossible(designs[..i], ltp)
    {
      var b := DesignPossible(designs[i], ltp);
      assert designs[..i + 1][..i] == designs[..i];
      if b {
        n := n + 1;
      }
    }
    assert designs[..|designs|] == designs;
    return Ok(n);
  }
}

/**
 * Day 5: print queue. Rules `x|y` say page `x` goes before page `y`; an update, a list
 * of pages, is in order when no page is preceded by a page it has to come before. Part
 * one sums the middle pages of the updates in order, testing each one against a
 * 128-bit mask per page of the pages that must come after it.
 */
module Day05 {
  import opened Wrappers
  import opened Text
  import opened Bits
  import opened Util

  /** `PrintJob`: the ordering rules and the updates. */
  datatype PrintJob = PrintJob(ord: seq<(int, int)>, upd: seq<seq<int>>)

  /** The number of entries of `pages_after`. */
  const PAGES: nat := 100

  /** The width of a `u128` mask. */
  const WIDTH: nat := 128

  // ---------------------------------------------------------------- parsing

  /** `str::parse::<i32>`, with the message of its error. */
  function ParseI32(s: string): (r: Result<int>)
    ensures r.Ok? <==> ParseInt(s, I32_MIN, I32_MAX).Some?
    ensures r.Ok? ==> r.value == ParseInt(s, I32_MIN, I32_MAX).value
  {
    StrParse(s, I32_MIN, I32_MAX)
  }

  /** A rule line: trimmed, then split at its first `|`, both sides `i32`. */
  function ParseRule(line: string): (r: Result<(int, int)>)
    ensures '|' !in Trim(line) ==> r == Err("invalid line")
    ensures r.Ok? ==> IsI32(r.value.0) && IsI32(r.value.1)
  {
    match SplitOnce(Trim(line), '|')
    case None => Err("invalid line")
    case Some((x, y)) =>
      match ParseI32(x)
      case Err(e) => Err(e)
      case Ok(a) =>
        match ParseI32(y)
        case Err(e) => Err(e)
        case Ok(b) => Ok((a, b))
  }

  /** An update line: trimmed, then every piece between commas an `i32`. */
  function ParseUpdate(line: string): (r: Result<seq<int>>)
    ensures r.Ok? ==> |r.value| >= 1 && forall i :: 0 <= i < |r.value| ==> IsI32(r.value[i])
  {
    CollectAll(Split(Trim(line), ','), ParseI32)
  }

  /** A line that ends the rule section. */
  predicate Blank(line: string)
  {
    Trim(line) == ""
  }

  /** The number of rule lines: the lines before the first blank one. */
  function RulesEnd(lines: seq<string>): (k: nat)
    ensures k <= |lines|
  {
    UntilStop(lines, Blank)
  }

  /** The rule lines are not blank, and the line after them, if any, is. */
  lemma {:induction false} RulesEndMeaning(lines: seq<string>)
    ensures forall i :: 0 <= i < RulesEnd(lines) ==> !Blank(lines[i])
    ensures RulesEnd(lines) < |lines| ==> Blank(lines[RulesEnd(lines)])
    decreases |lines|
  {
    if lines != [] && !Blank(lines[0]) {
      RulesEndMeaning(lines[1..]);
    }
  }

  /**
   * What `parse_print_job` reads from the lines of its input: the rules up to the first
   * empty line, which is skipped, then one update per remaining line; the first line
   * that fails is the error.
   */
  function JobOf(lines: seq<string>): Result<PrintJob>
  {
    var k := RulesEnd(lines);
    match CollectAll(lines[..k], ParseRule)
    case Err(e) => Err(e)
    case Ok(ord) =>
      match CollectAll(if k < |lines| then lines[k + 1..] else [], ParseUpdate)
      case Err(e) => Err(e)
      case Ok(upd) => Ok(PrintJob(ord, upd))
  }

  /** A rule line without `|` before the first empty line makes the whole input fail. */
  lemma RuleWithoutBar(lines: seq<string>, i: nat)
    requires i < RulesEnd(lines) && '|' !in Trim(lines[i])
    ensures JobOf(lines).Err?
  {
    var rules := lines[..RulesEnd(lines)];
    assert rules[i] == lines[i];
  }

  /** `parse_print_job`: the rule loop stops at the first empty line, the update loop runs to the end. */
  method ParsePrintJob(input: string) returns (r: Result<PrintJob>)
    ensures r == JobOf(Lines(input))
  {
    r := ReadJob(Lines(input));
  }

  /** The two loops of `parse_print_job` over the lines of the input. */
  method ReadJob(lines: seq<string>) returns (r: Result<PrintJob>)
    ensures r == JobOf(lines)
  {
    var rules := ReadSection(lines, Blank, ParseRule);
    var k := RulesEnd(lines);
    assert rules == CollectAll(lines[..k], ParseRule);
    if rules.Err? {
      return Err(rules.error);
    }
    var rest := if k < |lines| then lines[k + 1..] else [];
    var upd := ReadUpdates(rest);
    if upd.Err? {
      return Err(upd.error);
    }
    return Ok(PrintJob(rules.value, upd.value));
  }

  /**
   * The first loop of `parse_print_job`: one item per line until a `blank` line or the
   * end, for the rule parser `parse`.
   */
  method ReadSection<T>(lines: seq<string>, blank: string -> bool, parse: string -> Result<T>)
    returns (r: Result<seq<T>>)
    ensures r == CollectAll(lines[..UntilStop(lines, blank)], parse)
  {
    var ord: seq<T> := [];
    var i := 0;
    while i < |lines| && !blank(lines[i])
      invariant i <= |lines| && forall m :: 0 <= m < i ==> !blank(lines[m])
      invariant CollectAll(lines[..i], parse) == Ok(ord)
    {
      CollectAllSnoc(lines, parse, i);
      var rule := parse(lines[i]);
      if rule.Err? {
        UntilPast(lines, blank, i);
        CollectAllFirstErrAt(lines, parse, i, UntilStop(lines, blank));
        return Err(rule.error);
      }
      ord := ord + [rule.value];
      i := i + 1;
    }
    UntilAt(lines, blank, i);
    return Ok(ord);
  }

  /** The second loop of `parse_print_job`: one update per remaining line. */
  method ReadUpdates(rest: seq<string>) returns (r: Result<seq<seq<int>>>)
    ensures r == CollectAll(rest, ParseUpdate)
  {
    var upd: seq<seq<int>> := [];
    for j := 0 to |rest|
      invariant CollectAll(rest[..j], ParseUpdate) == Ok(upd)
    {
      CollectAllSnoc(rest, ParseUpdate, j);
      var pages := ParseUpdate(rest[j]);
      if pages.Err? {
        CollectAllFirstErr(rest, ParseUpdate, j);
        return Err(pages.error);
      }
      upd := upd + [pages.value];
    }
    assert rest[..|rest|] == rest;
    return Ok(upd);
  }

  // ---------------------------------------------------------------- writing a job back

  /** The characters a written job uses besides its line breaks. */
  predicate JobChar(c: char)
  {
    IsDigit(c) || c == '-' || c == '|' || c == ','
  }

  /** Job characters are not whitespace. */
  lemma JobCharNotSpace(c: char)
    requires JobChar(c)
    ensures c !in Whitespace
  {
  }

  function RuleText(rule: (int, int)): string
  {
    IntToString(rule.0) + "|" + IntToString(rule.1)
  }

  function UpdateText(pages: seq<int>): string
  {
    Join(seq(|pages|, i requires 0 <= i < |pages| => IntToString(pages[i])), ",")
  }

  function RuleLines(ord: seq<(int, int)>): (ls: seq<string>)
    ensures |ls| == |ord|
  {
    if ord == [] then [] else RuleLines(ord[..|ord| - 1]) + [RuleText(ord[|ord| - 1])]
  }

  function UpdateLines(upd: seq<seq<int>>): (ls: seq<string>)
    ensures |ls| == |upd|
  {
    if upd == [] then [] else UpdateLines(upd[..|upd| - 1]) + [UpdateText(upd[|upd| - 1])]
  }

  /** The rules one per line, an empty line, then the updates one per line. */
  function JobLines(pj: PrintJob): seq<string>
  {
    RuleLines(pj.ord) + [""] + UpdateLines(pj.upd)
  }

  /** A job that can be written: `i32` numbers and no empty update. */
  predicate Writable(pj: PrintJob)
  {
    (forall i :: 0 <= i < |pj.ord| ==> IsI32(pj.ord[i].0) && IsI32(pj.ord[i].1))
    && forall i :: 0 <= i < |pj.upd| ==> |pj.upd[i]| >= 1 && forall k :: 0 <= k < |pj.upd[i]| ==> IsI32(pj.upd[i][k])
  }

  /** `s` uses only job characters. */
  predicate JobText(s: string)
  {
    forall k :: 0 <= k < |s| ==> JobChar(s[k])
  }

  /** A job text has no surrounding whitespace. */
  lemma JobTextTrim(s: string)
    requires JobText(s)
    ensures Trim(s) == s
  {
    forall k | 0 <= k < |s| ensures s[k] !in Whitespace {
      JobCharNotSpace(s[k]);
    }
    TrimNoSpace(s);
  }

  /** A decimal form uses only job characters and holds no `|` or `,`. */
  lemma IntTextChars(v: int)
    ensures JobText(IntToString(v)) && '|' !in IntToString(v) && ',' !in IntToString(v)
  {
    IntToStringChars(v);
  }

  lemma RuleTextRead(rule: (int, int))
    requires IsI32(rule.0) && IsI32(rule.1)
    ensures ParseRule(RuleText(rule)) == Ok(rule) && |RuleText(rule)| > 0 && JobText(RuleText(rule))
  {
    var s := RuleText(rule);
    IntTextChars(rule.0);
    IntTextChars(rule.1);
    assert JobText(s);
    JobTextTrim(s);
    SplitOnceAt(IntToString(rule.0), '|', IntToString(rule.1));
    RuleRead(s, rule);
  }

  /** A line whose trimmed text splits at `|` into two decimal forms reads as that rule. */
  lemma RuleRead(s: string, rule: (int, int))
    requires IsI32(rule.0) && IsI32(rule.1)
    requires SplitOnce(Trim(s), '|') == Some((IntToString(rule.0), IntToString(rule.1)))
    ensures ParseRule(s) == Ok(rule)
  {
    ParseIntOfIntToString(rule.0, I32_MIN, I32_MAX);
    ParseIntOfIntToString(rule.1, I32_MIN, I32_MAX);
  }

  lemma UpdateTextRead(pages: seq<int>)
    requires |pages| >= 1 && forall k :: 0 <= k < |pages| ==> IsI32(pages[k])
    ensures ParseUpdate(UpdateText(pages)) == Ok(pages) && JobText(UpdateText(pages))
  {
    var ws := seq(|pages|, i requires 0 <= i < |pages| => IntToString(pages[i]));
    forall i | 0 <= i < |ws|
      ensures JobText(ws[i]) && ',' !in ws[i]
      ensures ParseI32(ws[i]) == Ok(pages[i])
    {
      IntTextChars(pages[i]);
      ParseIntOfIntToString(pages[i], I32_MIN, I32_MAX);
    }
    JoinWithin(ws, ",", JobChar);
    var s := UpdateText(pages);
    JobTextTrim(s);
    SplitOfJoin(ws, ',');
    CollectAllOfValues(ws, ParseI32, pages);
  }

  /** Reading the written form of a job gives the job back. */
  lemma JobRoundTrip(pj: PrintJob)
    requires Writable(pj)
    ensures JobOf(Lines(Unlines(JobLines(pj)))) == Ok(pj)
  {
    var rs, us := RuleLines(pj.ord), UpdateLines(pj.upd);
    RuleLinesRead(pj.ord);
    UpdateLinesRead(pj.upd);
    assert Lines(Unlines(JobLines(pj))) == JobLines(pj) by {
      CleanLines(JobLines(pj));
      LinesOfUnlines(JobLines(pj));
    }
    JobOfShape(rs, us, pj);
  }

  /** The rule lines read back as the rules, none is blank, and all use job characters. */
  lemma {:induction false} RuleLinesRead(ord: seq<(int, int)>)
    requires forall i :: 0 <= i < |ord| ==> IsI32(ord[i].0) && IsI32(ord[i].1)
    ensures CollectAll(RuleLines(ord), ParseRule) == Ok(ord)
    ensures forall line :: line in RuleLines(ord) ==> |line| > 0 && JobText(line)
  {
    if ord != [] {
      var init, last := ord[..|ord| - 1], ord[|ord| - 1];
      assert ord == init + [last];
      RuleLinesRead(init);
      RuleTextRead(last);
      InitOfSnoc(RuleLines(init), RuleText(last));
    }
  }

  /** The update lines read back as the updates, and all use job characters. */
  lemma {:induction false} UpdateLinesRead(upd: seq<seq<int>>)
    requires forall i :: 0 <= i < |upd| ==> |upd[i]| >= 1 && forall k :: 0 <= k < |upd[i]| ==> IsI32(upd[i][k])
    ensures CollectAll(UpdateLines(upd), ParseUpdate) == Ok(upd)
    ensures forall line :: line in UpdateLines(upd) ==> JobText(line)
  {
    if upd != [] {
      var init, last := upd[..|upd| - 1], upd[|upd| - 1];
      assert upd == init + [last];
      UpdateLinesRead(init);
      UpdateTextRead(last);
      InitOfSnoc(UpdateLines(init), UpdateText(last));
    }
  }

  /** Lines of job characters hold no line break and end in no carriage return. */
  lemma CleanLines(lines: seq<string>)
    requires forall line :: line in lines ==> JobText(line)
    ensures forall line :: line in lines ==> '\n' !in line && (|line| == 0 || line[|line| - 1] != '\r')
  {
    forall line | line in lines
      ensures '\n' !in line && (|line| == 0 || line[|line| - 1] != '\r')
    {
      assert JobText(line);
    }
  }

  /** Rule lines, an empty line and update lines that collect into a job are read as that job. */
  lemma JobOfShape(rs: seq<string>, us: seq<string>, pj: PrintJob)
    requires forall line :: line in rs ==> |line| > 0 && JobText(line)
    requires CollectAll(rs, ParseRule) == Ok(pj.ord) && CollectAll(us, ParseUpdate) == Ok(pj.upd)
    ensures JobOf(rs + [""] + us) == Ok(pj)
  {
    var lines := rs + [""] + us;
    var n := |rs|;
    forall i | 0 <= i < n
      ensures !Blank(lines[i])
    {
      assert lines[i] == rs[i] && rs[i] in rs;
      JobTextTrim(lines[i]);
    }
    assert Blank(lines[n]) by {
      JobTextTrim(lines[n]);
    }
    UntilAt(lines, Blank, n);
    SlicesAround(rs, "", us);
  }

  // ---------------------------------------------------------------- the pages after each page

  /** The rules `star1` can process: `x` indexes `pages_after` and `1 << y` does not overflow. */
  predicate RulesFit(ord: seq<(int, int)>)
  {
    forall i :: 0 <= i < |ord| ==> 0 <= ord[i].0 < PAGES && 0 <= ord[i].1 < WIDTH
  }

  /** Every page of every update indexes `pages_after`, and every update has a middle page. */
  predicate UpdatesFit(upd: seq<seq<int>>)
  {
    forall i :: 0 <= i < |upd| ==> |upd[i]| >= 1 && forall k :: 0 <= k < |upd[i]| ==> 0 <= upd[i][k] < PAGES
  }

  /** `pa` holds `pages_after`: bit `y` of entry `x` is set exactly when the rule `x|y` is present. */
  ghost predicate Records(pa: seq<nat>, ord: seq<(int, int)>)
  {
    |pa| == PAGES
    && (forall x :: 0 <= x < PAGES ==> pa[x] < Pow2(WIDTH))
    && forall x, y :: 0 <= x < PAGES && 0 <= y < WIDTH ==> (TestBit(pa[x], y) <==> (x, y) in ord)
  }

  /** `m |= 1 << y` sets bit `y` and keeps the others. */
  lemma SetBit(m: nat, y: nat)
    requires m < Pow2(WIDTH) && y < WIDTH
    ensures Or(m, Shl(1, y, WIDTH)) < Pow2(WIDTH)
    ensures forall b :: TestBit(Or(m, Shl(1, y, WIDTH)), b) <==> TestBit(m, b) || b == y
  {
    ShlOne(y, WIDTH);
    Pow2Monotone(y + 1, WIDTH);
    OrBound(m, Pow2(y), WIDTH);
    forall b ensures TestBit(Or(m, Pow2(y)), b) <==> TestBit(m, b) || b == y {
      OrBit(m, Pow2(y), b);
      TestBitPow2(y, b);
    }
  }

  /** Recording one more rule sets its bit and keeps the record of the others. */
  lemma RecordsStep(pa: seq<nat>, ord: seq<(int, int)>, x: nat, y: nat)
    requires Records(pa, ord) && x < PAGES && y < WIDTH
    ensures Records(pa[x := Or(pa[x], Shl(1, y, WIDTH))], ord + [(x, y)])
  {
    SetBit(pa[x], y);
  }

  /** The `for` loop of `star1` that fills `pages_after`. */
  method PagesAfter(ord: seq<(int, int)>) returns (pa: seq<nat>)
    requires RulesFit(ord)
    ensures Records(pa, ord)
  {
    var a := new nat[PAGES](_ => 0);
    forall x, y | 0 <= x < PAGES && 0 <= y < WIDTH
      ensures !TestBit(a[x], y)
    {
      TestBitOfZero(y);
    }
    assert Records(a[..], ord[..0]);
    for k := 0 to |ord|
      invariant Records(a[..], ord[..k])
    {
      var rule := ord[k];
      assert ord[..k + 1] == ord[..k] + [rule];
      RecordsStep(a[..], ord[..k], rule.0, rule.1);
      a[rule.0] := Or(a[rule.0], Shl(1, rule.1, WIDTH));
    }
    assert ord[..|ord|] == ord;
    pa := a[..];
  }

  // ---------------------------------------------------------------- the order check

  /** The mask of the pages in `ps`, as the `scan` state holds it. */
  function Mask(ps: seq<int>): (m: nat)
    requires forall i :: 0 <= i < |ps| ==> 0 <= ps[i] < WIDTH
    ensures m < Pow2(WIDTH)
  {
    if ps == [] then 0
    else
      var init := ps[..|ps| - 1];
      SetBit(Mask(init), ps[|ps| - 1]);
      Or(Mask(init), Shl(1, ps[|ps| - 1], WIDTH))
  }

  /** A bit of the mask is set exactly for the pages in the list. */
  lemma {:induction false} MaskBit(ps: seq<int>, b: nat)
    requires forall i :: 0 <= i < |ps| ==> 0 <= ps[i] < WIDTH
    ensures TestBit(Mask(ps), b) <==> b in ps
  {
    if ps == [] {
      TestBitOfZero(b);
    } else {
      var init := ps[..|ps| - 1];
      SetBit(Mask(init), ps[|ps| - 1]);
      MaskBit(init, b);
      assert ps == init + [ps[|ps| - 1]];
    }
  }

  /** The `scan`/`all` of `star1`: each page is checked against the pages before it, held in `preds`. */
  function OrderOk(pa: seq<nat>, pr: seq<int>, preds: nat): bool
    requires |pa| == PAGES && forall i :: 0 <= i < |pr| ==> 0 <= pr[i] < PAGES
    decreases |pr|
  {
    pr == [] || (And(pa[pr[0]], preds) == 0 && OrderOk(pa, pr[1..], Or(preds, Shl(1, pr[0], WIDTH))))
  }

  /** No page of `pr` is preceded by a page that a rule puts after it. */
  predicate InOrder(pr: seq<int>, ord: seq<(int, int)>)
  {
    forall i, j :: 0 <= j < i < |pr| ==> (pr[i], pr[j]) !in ord
  }

  /** The page at `k` is checked against the mask of the pages before it. */
  lemma PageCheck(pa: seq<nat>, ord: seq<(int, int)>, pr: seq<int>, k: nat)
    requires Records(pa, ord) && k < |pr| && forall i :: 0 <= i < |pr| ==> 0 <= pr[i] < PAGES
    ensures And(pa[pr[k]], Mask(pr[..k])) == 0 <==> forall j :: 0 <= j < k ==> (pr[k], pr[j]) !in ord
  {
    var before := pr[..k];
    AndZeroIff(pa[pr[k]], Mask(before), WIDTH);
    forall b | 0 <= b < WIDTH
      ensures TestBit(Mask(before), b) <==> b in before
    {
      MaskBit(before, b);
    }
    if exists j :: 0 <= j < k && (pr[k], pr[j]) in ord {
      var j :| 0 <= j < k && (pr[k], pr[j]) in ord;
      assert before[j] == pr[j];
    }
  }

  /** The scan from position `k` accepts exactly when no page from `k` on breaks a rule. */
  lemma {:induction false} OrderOkFrom(pa: seq<nat>, ord: seq<(int, int)>, pr: seq<int>, k: nat)
    requires Records(pa, ord) && k <= |pr| && forall i :: 0 <= i < |pr| ==> 0 <= pr[i] < PAGES
    ensures OrderOk(pa, pr[k..], Mask(pr[..k])) <==> forall i, j :: 0 <= j < i < |pr| && k <= i ==> (pr[i], pr[j]) !in ord
    decreases |pr| - k
  {
    if k < |pr| {
      PageCheck(pa, ord, pr, k);
      OrderOkFrom(pa, ord, pr, k + 1);
      assert pr[..k + 1][..k] == pr[..k] && pr[..k + 1][k] == pr[k];
      assert pr[k..][1..] == pr[k + 1..];
    }
  }

  /** The bitmask check decides `InOrder`. */
  lemma OrderOkIsInOrder(pa: seq<nat>, ord: seq<(int, int)>, pr: seq<int>)
    requires Records(pa, ord) && forall i :: 0 <= i < |pr| ==> 0 <= pr[i] < PAGES
    ensures OrderOk(pa, pr, 0) <==> InOrder(pr, ord)
  {
    OrderOkFrom(pa, ord, pr, 0);
    assert pr[0..] == pr && pr[..0] == [];
  }

  // ---------------------------------------------------------------- part one

  /** The sum of the middle pages of the updates in order. */
  function MiddleSum(ord: seq<(int, int)>, upd: seq<seq<int>>): nat
    requires UpdatesFit(upd)
  {
    if upd == [] then 0
    else
      var pr := upd[|upd| - 1];
      MiddleSum(ord, upd[..|upd| - 1]) + (if InOrder(pr, ord) then pr[|pr| / 2] else 0)
  }

  /** The `filter_map`/`sum` of `star1` over the bitmask check. */
  function AcceptedSum(pa: seq<nat>, upd: seq<seq<int>>): nat
    requires |pa| == PAGES && UpdatesFit(upd)
  {
    if upd == [] then 0
    else
      var pr := upd[|upd| - 1];
      AcceptedSum(pa, upd[..|upd| - 1]) + (if OrderOk(pa, pr, 0) then pr[|pr| / 2] else 0)
  }

  lemma {:induction false} AcceptedSumIsMiddleSum(pa: seq<nat>, ord: seq<(int, int)>, upd: seq<seq<int>>)
    requires Records(pa, ord) && UpdatesFit(upd)
    ensures AcceptedSum(pa, upd) == MiddleSum(ord, upd)
  {
    if upd != [] {
      AcceptedSumIsMiddleSum(pa, ord, upd[..|upd| - 1]);
      OrderOkIsInOrder(pa, ord, upd[|upd| - 1]);
    }
  }

  /** `star1`: the sum of the middle pages of the updates in order. */
  method Star1(pj: PrintJob) returns (s: nat)
    requires RulesFit(pj.ord) && UpdatesFit(pj.upd)
    ensures s == MiddleSum(pj.ord, pj.upd)
  {
    var pa := PagesAfter(pj.ord);
    AcceptedSumIsMiddleSum(pa, pj.ord, pj.upd);
    return AcceptedSum(pa, pj.upd);
  }
}

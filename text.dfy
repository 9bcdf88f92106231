/**
 * The parts of Rust's `str` API that the solutions lean on, on ASCII text:
 * `lines`, `split`, `split_once`, `split_ascii_whitespace`, `trim`,
 * `trim_start_matches`, `strip_prefix` and `parse` for the integer types.
 * Every character stands for one byte of the input.
 */
module Text {
  import opened Wrappers

  predicate IsDigit(c: char) { '0' <= c <= '9' }

  predicate AllDigits(s: string) { forall i :: 0 <= i < |s| ==> IsDigit(s[i]) }

  /** `char::is_ascii_whitespace`: space, tab, line feed, form feed and carriage return. */
  const AsciiWhitespace: set<char> := {' ', '\t', '\n', '\r', 12 as char}

  /** `char::is_whitespace` restricted to ASCII: the above and the vertical tab. */
  const Whitespace: set<char> := AsciiWhitespace + {11 as char}

  // ---------------------------------------------------------------- searching

  /** Position of the first `c` in `s`. */
  function IndexOf(s: string, c: char): (r: Option<nat>)
    ensures r.None? <==> c !in s
    ensures r.Some? ==> r.value < |s| && s[r.value] == c && c !in s[..r.value]
  {
    if |s| == 0 then None
    else if s[0] == c then Some(0)
    else match IndexOf(s[1..], c)
      case None => None
      case Some(i) =>
        assert s[..i + 1] == [s[0]] + s[1..][..i];
        Some(i + 1)
  }

  predicate OccursAt(s: string, pat: string, i: nat) { i + |pat| <= |s| && s[i..i + |pat|] == pat }

  /** Position of the first occurrence of `pat` in `s` at or after `from`. */
  function FindFrom(s: string, pat: string, from: nat): (r: Option<nat>)
    requires |pat| > 0
    ensures r.Some? ==> from <= r.value && OccursAt(s, pat, r.value)
    ensures r.Some? ==> forall j :: from <= j < r.value ==> !OccursAt(s, pat, j)
    ensures r.None? ==> forall j :: from <= j ==> !OccursAt(s, pat, j)
    decreases |s| - from
  {
    if from + |pat| > |s| then None
    else if s[from..from + |pat|] == pat then Some(from)
    else FindFrom(s, pat, from + 1)
  }

  // ---------------------------------------------------------------- splitting

  /** The pieces joined back together with `sep` between them. */
  function Join(pieces: seq<string>, sep: string): string
  {
    if |pieces| == 0 then [] else if |pieces| == 1 then pieces[0] else pieces[0] + sep + Join(pieces[1..], sep)
  }

  /** One more piece goes at the end, after a separator. */
  lemma {:induction false} JoinSnoc(ws: seq<string>, w: string, sep: string)
    requires |ws| > 0
    ensures Join(ws + [w], sep) == Join(ws, sep) + sep + w
  {
    if |ws| == 1 {
      assert (ws + [w])[1..] == [w];
    } else {
      assert (ws + [w])[1..] == ws[1..] + [w];
      JoinSnoc(ws[1..], w, sep);
    }
  }

  /** `str::split_once` with a character pattern. */
  function SplitOnce(s: string, c: char): (r: Option<(string, string)>)
    ensures r.None? <==> c !in s
    ensures r.Some? ==> s == r.value.0 + [c] + r.value.1 && c !in r.value.0
  {
    match IndexOf(s, c)
    case None => None
    case Some(i) =>
      assert s == s[..i] + [c] + s[i + 1..];
      Some((s[..i], s[i + 1..]))
  }

  /** `str::split_once` with a non-empty string pattern: split at its first occurrence. */
  function SplitOnceStr(s: string, pat: string): (r: Option<(string, string)>)
    requires |pat| > 0
    ensures r.None? <==> forall j :: 0 <= j ==> !OccursAt(s, pat, j)
    ensures r.Some? ==> s == r.value.0 + pat + r.value.1 && OccursAt(s, pat, |r.value.0|)
    ensures r.Some? ==> forall j :: 0 <= j < |r.value.0| ==> !OccursAt(s, pat, j)
  {
    match FindFrom(s, pat, 0)
    case None => None
    case Some(i) =>
      assert s == s[..i] + s[i..i + |pat|] + s[i + |pat|..];
      Some((s[..i], s[i + |pat|..]))
  }

  /** `split_once` finds the first `c`, right after a head without one. */
  lemma SplitOnceAt(head: string, c: char, rest: string)
    requires c !in head
    ensures SplitOnce(head + [c] + rest, c) == Some((head, rest))
  {
    var s := head + [c] + rest;
    var (a, b) := SplitOnce(s, c).value;
    assert s == a + [c] + b;
    assert s[|head|] == c;
    assert a == s[..|a|] == head;
    assert b == s[|head| + 1..] == rest;
  }

  /** `str::split` with a character pattern: never empty, and the pieces join back to `s`. */
  function Split(s: string, c: char): (r: seq<string>)
    ensures |r| >= 1
    ensures forall piece :: piece in r ==> c !in piece
    ensures Join(r, [c]) == s
    decreases |s|
  {
    match SplitOnce(s, c)
    case None => [s]
    case Some((head, tail)) => [head] + Split(tail, c)
  }

  /** Splitting pieces free of `c` back apart at `c` gives the pieces. */
  lemma {:induction false} SplitOfJoin(ws: seq<string>, c: char)
    requires |ws| >= 1 && forall i :: 0 <= i < |ws| ==> c !in ws[i]
    ensures Split(Join(ws, [c]), c) == ws
  {
    if |ws| > 1 {
      SplitOfJoin(ws[1..], c);
      SplitOnceAt(ws[0], c, Join(ws[1..], [c]));
      HeadTail(ws);
    }
  }

  /** Pieces and separator of characters that satisfy `ok` join into such a string. */
  lemma {:induction false} JoinWithin(ws: seq<string>, sep: string, ok: char -> bool)
    requires forall i, k :: 0 <= i < |ws| && 0 <= k < |ws[i]| ==> ok(ws[i][k])
    requires forall k :: 0 <= k < |sep| ==> ok(sep[k])
    ensures forall k :: 0 <= k < |Join(ws, sep)| ==> ok(Join(ws, sep)[k])
  {
    if |ws| > 1 {
      JoinWithin(ws[1..], sep, ok);
      var t := Join(ws[1..], sep);
      assert forall k :: 0 <= k < |t| ==> ok(t[k]);
      assert forall k :: 0 <= k < |ws[0]| ==> ok(ws[0][k]);
    }
  }

  /** `str::split` with a non-empty string pattern, matched left to right without overlap. */
  function SplitStr(s: string, pat: string): (r: seq<string>)
    requires |pat| > 0
    ensures |r| >= 1
    ensures Join(r, pat) == s
    decreases |s|
  {
    match SplitOnceStr(s, pat)
    case None => [s]
    case Some((head, tail)) => [head] + SplitStr(tail, pat)
  }

  /** A line without its `\r` terminator, as `str::lines` strips it before a `\n`. */
  function StripCR(line: string): string
  {
    if |line| > 0 && line[|line| - 1] == '\r' then line[..|line| - 1] else line
  }

  /**
   * `str::lines`: the pieces between line feeds, each without a `\r` that ends it;
   * the text after the last line feed is a line only when it is not empty.
   */
  function Lines(s: string): (r: seq<string>)
    ensures forall line :: line in r ==> '\n' !in line
    ensures s == [] <==> r == []
    decreases |s|
  {
    if s == [] then []
    else match SplitOnce(s, '\n')
      case None => [s]
      case Some((head, tail)) => [StripCR(head)] + Lines(tail)
  }

  /** Lines written back, each followed by a line feed. */
  function Unlines(ls: seq<string>): string
  {
    if ls == [] then [] else ls[0] + "\n" + Unlines(ls[1..])
  }

  /** Reading back lines that were written one per line gives the same lines. */
  lemma {:induction false} LinesOfUnlines(ls: seq<string>)
    requires forall line :: line in ls ==> '\n' !in line && (|line| == 0 || line[|line| - 1] != '\r')
    ensures Lines(Unlines(ls)) == ls
  {
    if ls != [] {
      var s := Unlines(ls);
      assert s == ls[0] + "\n" + Unlines(ls[1..]);
      assert s[|ls[0]|] == '\n';
      assert s[..|ls[0]|] == ls[0];
      assert SplitOnce(s, '\n') == Some((ls[0], Unlines(ls[1..])));
      LinesOfUnlines(ls[1..]);
    }
  }

  // ---------------------------------------------------------------- trimming

  /** `str::trim_start_matches` with a set of characters. */
  function TrimStartMatches(s: string, cs: set<char>): (r: string)
    ensures |r| <= |s| && r == s[|s| - |r|..]
    ensures forall i :: 0 <= i < |s| - |r| ==> s[i] in cs
    ensures |r| == 0 || r[0] !in cs
    decreases |s|
  {
    if |s| > 0 && s[0] in cs then TrimStartMatches(s[1..], cs) else s
  }

  /** `str::trim_end_matches` with a set of characters. */
  function TrimEndMatches(s: string, cs: set<char>): (r: string)
    ensures |r| <= |s| && r == s[..|r|]
    ensures forall i :: |r| <= i < |s| ==> s[i] in cs
    ensures |r| == 0 || r[|r| - 1] !in cs
    decreases |s|
  {
    if |s| > 0 && s[|s| - 1] in cs then TrimEndMatches(s[..|s| - 1], cs) else s
  }

  /** Trimming a run of characters from the set stops at the first character outside it. */
  lemma {:induction false} TrimStartOf(run: string, rest: string, cs: set<char>)
    requires forall i :: 0 <= i < |run| ==> run[i] in cs
    requires rest == [] || rest[0] !in cs
    ensures TrimStartMatches(run + rest, cs) == rest
  {
    if run != [] {
      assert (run + rest)[1..] == run[1..] + rest;
      TrimStartOf(run[1..], rest, cs);
    }
  }

  /** `str::trim`. */
  function Trim(s: string): string
  {
    TrimEndMatches(TrimStartMatches(s, Whitespace), Whitespace)
  }

  /** A string without whitespace is its own trim. */
  lemma TrimNoSpace(s: string)
    requires forall i :: 0 <= i < |s| ==> s[i] !in Whitespace
    ensures Trim(s) == s
  {
    TrimStartOf([], s, Whitespace);
    assert [] + s == s;
  }

  /** `str::strip_prefix`. */
  function StripPrefix(s: string, prefix: string): (r: Option<string>)
    ensures r.Some? <==> (|prefix| <= |s| && s[..|prefix|] == prefix)
    ensures r.Some? ==> s == prefix + r.value
  {
    if |prefix| <= |s| && s[..|prefix|] == prefix then
      assert s == prefix + s[|prefix|..];
      Some(s[|prefix|..])
    else None
  }

  /** Length of the longest prefix of `s` free of ASCII whitespace. */
  function WordLength(s: string): (n: nat)
    ensures n <= |s| && (n == |s| || s[n] in AsciiWhitespace)
    ensures NoAsciiSpace(s[..n])
    ensures |s| > 0 && s[0] !in AsciiWhitespace ==> n > 0
    decreases |s|
  {
    if |s| == 0 || s[0] in AsciiWhitespace then 0
    else
      var m := WordLength(s[1..]);
      assert s[..m + 1][1..] == s[1..][..m];
      1 + m
  }

  /** A non-empty string without ASCII whitespace, the shape of every `split_ascii_whitespace` item. */
  predicate IsWord(w: string) { |w| > 0 && NoAsciiSpace(w) }

  predicate NoAsciiSpace(w: string) { w == [] || (w[0] !in AsciiWhitespace && NoAsciiSpace(w[1..])) }

  /** `str::split_ascii_whitespace`: the non-empty runs of non-whitespace, in order. */
  function Words(s: string): (r: seq<string>)
    ensures forall w :: w in r ==> IsWord(w)
    decreases |s|
  {
    var t := TrimStartMatches(s, AsciiWhitespace);
    if t == [] then []
    else
      var n := WordLength(t);
      FirstWord(t);
      [t[..n]] + Words(t[n..])
  }

  /** The run of non-whitespace at the start of a string that starts with one is a word. */
  lemma FirstWord(t: string)
    requires |t| > 0 && t[0] !in AsciiWhitespace
    ensures IsWord(t[..WordLength(t)])
  {
  }

  /** Words written with single spaces between them split back into the same words. */
  lemma {:induction false} WordsOfJoin(ws: seq<string>)
    requires forall i :: 0 <= i < |ws| ==> IsWord(ws[i])
    ensures Words(Join(ws, " ")) == ws
  {
    if |ws| == 1 {
      WordsOfWordThen(ws[0], []);
      assert ws[0] + [] == ws[0];
      assert Join(ws, " ") == ws[0];
      assert [ws[0]] == ws;
    } else if |ws| > 1 {
      var rest := Join(ws[1..], " ");
      assert Join(ws, " ") == ws[0] + " " + rest;
      WordsOfJoin(ws[1..]);
      WordsCons(ws[0], rest);
      HeadTail(ws);
    } else {
      assert Join(ws, " ") == [];
    }
  }

  lemma HeadTail<T>(s: seq<T>)
    requires |s| > 0
    ensures [s[0]] + s[1..] == s
  {
  }

  lemma WordsCons(w: string, rest: string)
    requires IsWord(w)
    ensures Words(w + " " + rest) == [w] + Words(rest)
  {
    var spaced := " " + rest;
    assert w + " " + rest == w + spaced;
    WordsOfWordThen(w, spaced);
    assert spaced[1..] == rest;
    WordsSkipsSpace(spaced);
  }

  lemma WordsOfWordThen(w: string, rest: string)
    requires IsWord(w) && (rest == [] || rest[0] in AsciiWhitespace)
    ensures Words(w + rest) == [w] + Words(rest)
  {
    var s := w + rest;
    assert s[0] == w[0];
    assert TrimStartMatches(s, AsciiWhitespace) == s;
    WordLengthOfWord(w, rest);
    assert s[..|w|] == w;
    assert s[|w|..] == rest;
  }

  lemma WordLengthOfWord(w: string, rest: string)
    requires IsWord(w) && (rest == [] || rest[0] in AsciiWhitespace)
    ensures WordLength(w + rest) == |w|
    decreases |w|
  {
    if |w| > 1 {
      assert (w + rest)[1..] == w[1..] + rest;
      WordLengthOfWord(w[1..], rest);
    } else {
      assert (w + rest)[1..] == rest;
    }
  }

  lemma JoinStartsWithFirst(ws: seq<string>)
    requires |ws| > 0 && IsWord(ws[0])
    ensures |Join(ws, " ")| > 0 && Join(ws, " ")[0] == ws[0][0]
  {
    if |ws| > 1 {
      assert Join(ws, " ") == ws[0] + " " + Join(ws[1..], " ");
    }
  }

  lemma WordsSkipsSpace(s: string)
    requires |s| > 0 && s[0] == ' '
    ensures Words(s) == Words(s[1..])
  {
  }

  // ---------------------------------------------------------------- integers

  function DigitValue(c: char): nat requires IsDigit(c) { c as int - '0' as int }

  /** The value of a string of decimal digits, most significant first. */
  function DecValue(ds: string): nat
    requires AllDigits(ds)
  {
    if ds == [] then 0 else DecValue(ds[..|ds| - 1]) * 10 + DigitValue(ds[|ds| - 1])
  }

  /**
   * `str::parse` for an integer type whose values run from `min` to `max`
   * (Rust's radix-10 `from_str_radix`): an optional `+`, or `-` for a signed type,
   * then one or more digits; a value out of range is an error.
   */
  function ParseInt(s: string, min: int, max: int): (r: Option<int>)
    requires min <= 0 <= max
    ensures r.Some? ==> min <= r.value <= max
    ensures r.Some? ==> |s| > 0 && (!IsDigit(s[0]) ==> |s| > 1)
  {
    if s == [] || ((s[0] == '+' || s[0] == '-') && |s| == 1) then None
    else
      var negative := s[0] == '-' && min < 0;
      var digits := if s[0] == '+' || negative then s[1..] else s;
      if !AllDigits(digits) then None
      else
        var v: int := if negative then -(DecValue(digits) as int) else DecValue(digits);
        if min <= v <= max then Some(v) else None
  }

  /** The kinds of `core::num::ParseIntError` that a parse into a plain integer type can give. */
  datatype IntError = Empty | InvalidDigit | PosOverflow | NegOverflow

  /** The `Display` text of each kind. */
  function IntErrorMessage(e: IntError): string
  {
    match e
    case Empty => "cannot parse integer from empty string"
    case InvalidDigit => "invalid digit found in string"
    case PosOverflow => "number too large to fit in target type"
    case NegOverflow => "number too small to fit in target type"
  }

  /** Whether `from_str_radix` reads a leading `-` as a sign: only a signed type has one. */
  predicate Negative(s: string, min: int) { |s| > 0 && s[0] == '-' && min < 0 }

  /** The characters after the sign that `from_str_radix` strips. */
  function DigitsOf(s: string, min: int): string
  {
    if |s| > 0 && (s[0] == '+' || Negative(s, min)) then s[1..] else s
  }

  /**
   * Where the digit loop of `from_str_radix` stops, reading `ds` from position `i` with
   * `acc` read so far: at the first non-digit, or at the first digit that takes the
   * value out of `min..=max` (a non-digit is reported before an overflow); `|ds|` when
   * it reads to the end.
   */
  function StopAt(ds: string, i: nat, acc: nat, negative: bool, min: int, max: int): (j: nat)
    requires i <= |ds|
    ensures i <= j <= |ds|
    decreases |ds| - i
  {
    if i == |ds| || !IsDigit(ds[i]) then i
    else
      var v := acc * 10 + DigitValue(ds[i]);
      if (if negative then -v < min else v > max) then i
      else StopAt(ds, i + 1, v, negative, min, max)
  }

  /** The error `str::parse` reports for a string that is not a value of the type. */
  function IntErrorOf(s: string, min: int, max: int): (e: IntError)
    requires min <= 0 <= max
    ensures e == Empty <==> s == []
  {
    if s == [] then Empty
    else if (s[0] == '+' || s[0] == '-') && |s| == 1 then InvalidDigit
    else
      var ds := DigitsOf(s, min);
      var j := StopAt(ds, 0, 0, Negative(s, min), min, max);
      if j == |ds| || !IsDigit(ds[j]) then InvalidDigit
      else if Negative(s, min) then NegOverflow
      else PosOverflow
  }

  /** `str::parse` for an integer type from `min` to `max`, with the message of its error. */
  function StrParse(s: string, min: int, max: int): (r: Result<int>)
    requires min <= 0 <= max
    ensures r.Ok? <==> ParseInt(s, min, max).Some?
    ensures r.Ok? ==> r.value == ParseInt(s, min, max).value
  {
    match ParseInt(s, min, max)
    case None => Err(IntErrorMessage(IntErrorOf(s, min, max)))
    case Some(v) => Ok(v)
  }

  lemma StrParseOk(s: string, min: int, max: int, v: int)
    requires min <= 0 <= max && ParseInt(s, min, max) == Some(v)
    ensures StrParse(s, min, max) == Ok(v)
  {
  }

  /** A prefix of a digit string is worth at most the whole. */
  lemma {:induction false} DecValuePrefix(ds: string, i: nat)
    requires AllDigits(ds) && i <= |ds|
    ensures AllDigits(ds[..i]) && DecValue(ds[..i]) <= DecValue(ds)
    decreases |ds|
  {
    if i < |ds| {
      var init := ds[..|ds| - 1];
      assert AllDigits(init);
      assert init[..i] == ds[..i];
      assert DecValue(ds) == DecValue(init) * 10 + DigitValue(ds[|ds| - 1]);
      DecValuePrefix(init, i);
    } else {
      assert ds[..i] == ds;
    }
  }

  /** One more digit: the value of the longer prefix is ten times the shorter plus the digit. */
  lemma DecValueStep(ds: string, i: nat)
    requires AllDigits(ds) && i < |ds|
    ensures AllDigits(ds[..i]) && AllDigits(ds[..i + 1])
    ensures DecValue(ds[..i + 1]) == DecValue(ds[..i]) * 10 + DigitValue(ds[i])
  {
    assert ds[..i + 1][..i] == ds[..i];
  }

  /** With the digits read so far in range, the loop reads an all-digit `ds` to its end iff its value is in range. */
  lemma {:induction false} StopAtDigits(ds: string, i: nat, negative: bool, min: int, max: int)
    requires AllDigits(ds) && i <= |ds| && AllDigits(ds[..i]) && min <= 0 <= max
    requires var acc: int := DecValue(ds[..i]); if negative then min <= -acc else acc <= max
    ensures var acc := DecValue(ds[..i]); var v: int := DecValue(ds);
      (StopAt(ds, i, acc, negative, min, max) == |ds|) <==> (if negative then min <= -v else v <= max)
    decreases |ds| - i
  {
    DecValuePrefix(ds, i);
    if i < |ds| {
      DecValueStep(ds, i);
      DecValuePrefix(ds, i + 1);
      var v1: int := DecValue(ds[..i + 1]);
      if !(if negative then -v1 < min else v1 > max) {
        StopAtDigits(ds, i + 1, negative, min, max);
      }
    } else {
      assert ds[..i] == ds;
    }
  }

  /** The loop stops at or before the first non-digit. */
  lemma {:induction false} StopAtNonDigit(ds: string, i: nat, acc: nat, negative: bool, min: int, max: int, k: nat)
    requires i <= k < |ds| && !IsDigit(ds[k])
    ensures StopAt(ds, i, acc, negative, min, max) <= k
    decreases k - i
  {
    if i < k && IsDigit(ds[i]) {
      var v := acc * 10 + DigitValue(ds[i]);
      if !(if negative then -v < min else v > max) {
        StopAtNonDigit(ds, i + 1, v, negative, min, max, k);
      }
    }
  }

  /**
   * `str::parse` fails exactly when the string is empty, is a lone sign, or its digit
   * loop stops before the end; an all-digit string then overflows towards its sign.
   */
  lemma ParseIntFails(s: string, min: int, max: int)
    requires min <= 0 <= max
    ensures var ds := DigitsOf(s, min);
      ParseInt(s, min, max).None? <==>
        (s == [] || ((s[0] == '+' || s[0] == '-') && |s| == 1) || StopAt(ds, 0, 0, Negative(s, min), min, max) < |ds|)
    ensures ParseInt(s, min, max).None? ==> (IntErrorOf(s, min, max) == Empty <==> s == [])
    ensures ParseInt(s, min, max).None? && s != [] && |DigitsOf(s, min)| > 0 && AllDigits(DigitsOf(s, min)) ==>
      IntErrorOf(s, min, max) == (if Negative(s, min) then NegOverflow else PosOverflow)
  {
    if s != [] && !((s[0] == '+' || s[0] == '-') && |s| == 1) {
      var ds := DigitsOf(s, min);
      var neg := Negative(s, min);
      if AllDigits(ds) {
        StopAtDigits(ds, 0, neg, min, max);
        assert ds[..0] == [];
      } else {
        var k :| 0 <= k < |ds| && !IsDigit(ds[k]);
        StopAtNonDigit(ds, 0, 0, neg, min, max, k);
      }
    }
  }

  /** The four kinds, on the inputs `""`, `"256"` and `"2a"` for `u8` and `"-129"` for `i8`. */
  lemma IntErrorExamples()
    ensures IntErrorOf("", 0, 255) == Empty
    ensures IntErrorOf("256", 0, 255) == PosOverflow
    ensures IntErrorOf("2a", 0, 255) == InvalidDigit
    ensures IntErrorOf("-129", -128, 127) == NegOverflow
  {
    assert StopAt("256", 0, 0, false, 0, 255) == 2 by {
      assert StopAt("256", 2, 25, false, 0, 255) == 2;
    }
    assert StopAt("2a", 0, 0, false, 0, 255) == 1;
    assert DigitsOf("-129", -128) == "129";
    assert StopAt("129", 0, 0, true, -128, 127) == 2 by {
      assert StopAt("129", 2, 12, true, -128, 127) == 2;
    }
  }

  /** Shortest decimal form of a natural number. */
  function NatToString(n: nat): (s: string)
    ensures |s| > 0 && AllDigits(s)
  {
    if n < 10 then [('0' as int + n) as char] else NatToString(n / 10) + [('0' as int + n % 10) as char]
  }

  /** Rust's `Display` for an integer. */
  function IntToString(v: int): string
  {
    if v < 0 then "-" + NatToString(-v) else NatToString(v)
  }

  lemma {:induction false} DecValueOfNatToString(n: nat)
    ensures DecValue(NatToString(n)) == n
  {
    var s := NatToString(n);
    if n >= 10 {
      DecValueOfNatToString(n / 10);
      assert s[..|s| - 1] == NatToString(n / 10);
    }
  }

  /** A decimal form is a `-` or a digit followed by digits. */
  lemma IntToStringChars(v: int)
    ensures |IntToString(v)| > 0 && IsDigit(IntToString(v)[|IntToString(v)| - 1])
    ensures forall i :: 0 <= i < |IntToString(v)| ==> IsDigit(IntToString(v)[i]) || (i == 0 && IntToString(v)[i] == '-')
  {
    if v < 0 {
      var digits := NatToString(-v);
      assert forall i :: 1 <= i < |IntToString(v)| ==> IntToString(v)[i] == digits[i - 1];
    }
  }

  /** A decimal form has no surrounding whitespace. */
  lemma TrimOfIntToString(v: int)
    ensures Trim(IntToString(v)) == IntToString(v)
  {
    var s := IntToString(v);
    IntToStringChars(v);
    var c, e := s[0], s[|s| - 1];
    assert c !in Whitespace by {
      assert IsDigit(c) || c == '-';
    }
    assert e !in Whitespace by {
      assert IsDigit(e);
    }
    assert TrimStartMatches(s, Whitespace) == s;
  }

  /** Every value of the type parses back from its decimal form. */
  lemma ParseIntOfIntToString(v: int, min: int, max: int)
    requires min <= 0 <= max && min <= v <= max
    ensures ParseInt(IntToString(v), min, max) == Some(v)
  {
    var s := IntToString(v);
    if v < 0 {
      var ds := NatToString(-v);
      DecValueOfNatToString(-v);
      assert s == "-" + ds && s[1..] == ds && |s| > 1;
      ParseIntDigits(s, ds, min, max, true);
    } else {
      DecValueOfNatToString(v);
      assert IsDigit(s[0]);
      ParseIntDigits(s, s, min, max, false);
    }
  }

  /** A string whose sign and digits are known parses to their signed value, when it fits. */
  lemma ParseIntDigits(s: string, ds: string, min: int, max: int, negative: bool)
    requires min <= 0 <= max && |s| > 0 && AllDigits(ds) && |ds| > 0
    requires if negative then min < 0 && s == "-" + ds else s == ds
    requires var v: int := DecValue(ds); if negative then min <= -v else v <= max
    ensures ParseInt(s, min, max) == Some(if negative then -(DecValue(ds) as int) else DecValue(ds))
  {
    if negative {
      assert s[0] == '-' && s[1..] == ds;
    } else {
      assert IsDigit(s[0]);
    }
  }
}

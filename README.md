# aoc24 in Dafny

A Dafny model of the solutions to the 2024 Advent of Code puzzles in the `aoc24`
repository, with proofs of what each solution computes. One module per source file:

- `Grids` (`grid.rs`): the `Point` and `Dir` arithmetic, the `Grid` class over a flat array
  (`parse`, `get`, `set`, `find`, `positions`, `flood`, `fill_block`).
- `Day01` … `Day25` (`dayNN.rs`, without `day03.rs`): each day's parser and the functions
  and loops behind its two answers, proved against specification functions that say what
  the answer means (a count, a shortest path, a largest clique, a fitting pair, …).
- `Extrapolate` (`extrapolate.rs`): `nth`, the polynomial extrapolation by a table of
  differences, proved equal to Newton's backward-difference sum.
- `QuadMaps` (`quadmap.rs`): the sparse block map over the plane with its bounding box.
- `Util` (`util.rs`): `skip_nth`, plus small sequence facts shared by the days.

Helper modules with no source file of their own: `Wrappers` (`Option`/`Result`), `Text`
(line splitting, `split_once`, integer parsing with the message of each kind of Rust's
`ParseIntError`, and printing),
`Bits` (fixed-width integers and bit operations), `Decimal` (decimal digits) and
`BreadthFirst` (the breadth-first search shared by days 18 and 20).

Integers are unbounded in Dafny. Where the source's integer width matters (wrap-around,
truncating casts, overflow panics) the model says so in the contracts, either as explicit
arithmetic modulo `2^n` or as a precondition that the value fits.

## Model

| member | source | states |
|---|---|---|
| Grids.Point.Sub | src/grid.rs:37-46 | subtracting a point undoes adding it |
| Grids.Dir.Right | src/grid.rs:86-93 | the right turn maps the unit step `(x, y)` to `(-y, x)`, a quarter clockwise on the screen |
| Grids.Dir.Left | src/day16.rs:116-120 | the left turn that `Node::left` calls through `self.dir.left()`; `grid.rs` defines no `left`, so the model adds it as the inverse of `right`: its result turned right is the direction it started from |
| Grids.Dir.Opposite | src/grid.rs:95-102 | the opposite direction's unit step is the negated step |
| Grids.Dir.Index | src/grid.rs:104-111 | the index is below 4 |
| Grids.Dir.StepScales | src/grid.rs:113-120 | `step(k)` is `k` times the direction's entry in `STEPS` |
| Grids.FromXY | src/grid.rs:66-84 | `Some` exactly for a non-zero horizontal or vertical vector, which is then that many steps in the direction |
| Grids.RightFourTimes | src/grid.rs:86-93 | four right turns are the identity |
| Grids.OppositeInvolution | src/grid.rs:95-102 | `opposite` is an involution without fixed point, and equals two right turns |
| Grids.IndexBijection | src/grid.rs:104-111 | `index` is a bijection onto 0..3 |
| Grids.FromXYOfStep | src/grid.rs:66-84 | a step of positive length points back in its own direction |
| Grids.DirsMatchSteps | src/grid.rs:49-52 | `DIRS[i]` steps by `STEPS[i]` |
| Grids.Grid.New | src/grid.rs:197-203 | `dx * dy` copies of `v` |
| Grids.Grid.Make | src/grid.rs:233-237 | a grid over storage of exactly `dx * dy` cells |
| Grids.Grid.ToIndex | src/grid.rs:167-172 | `Some` iff the point is inside, and then an index of the storage |
| Grids.Grid.ToXY | src/grid.rs:160-165 | `None` iff the index is past the storage, and otherwise an inside point that `to_index` maps back |
| Grids.Grid.ToIndexInjective | src/grid.rs:167-172 | no two inside points share an index |
| Grids.Grid.ToXYOfToIndex | src/grid.rs:160-172 | `to_xy` undoes `to_index` |
| Grids.Grid.Get | src/grid.rs:179-181 | `None` exactly outside the grid, otherwise the stored cell |
| Grids.Grid.Set | src/grid.rs:183-185 | writing through `get_mut` changes the one cell inside, or nothing outside |
| Grids.Grid.Fill | src/day18.rs:78 | every cell holds the new value |
| Grids.Grid.RowsFrom | src/grid.rs:132-134 | the points of rows `y..dy`, with point `k` at column `k % dx` of row `y + k / dx` |
| Grids.RowsStep | src/grid.rs:132-134 | a row of points followed by further rows is one more row, in row-major order |
| Grids.Grid.Positions | src/grid.rs:132-134 | every inside point, in row-major order, with point `k` stored at index `k` |
| Grids.Grid.PositionsComplete | src/grid.rs:132-134 | every inside point occurs in `positions`, at its own index |
| Grids.Grid.Iter | src/grid.rs:136-138 | the positions in order, each paired with the cell stored there |
| Grids.Grid.Find | src/grid.rs:250-256 | `None` iff no cell holds the value; otherwise the first row-major position holding it |
| Grids.FirstIndex | src/grid.rs:250-256 | the first index holding the value, `None` iff there is none |
| Grids.Grid.FillBlock | src/grid.rs:205-217 | the cells of the clipped half-open rectangle hold the value, and every other cell is unchanged |
| Grids.Grid.FillRow | src/grid.rs:213-216 | filling one more row's span extends the filled block by that row |
| Grids.Grid.RowMembership | src/grid.rs:211-216 | an index lies in row `y`'s span iff its point lies in that row between the clipped columns |
| Grids.Grid.PushNeighbours | src/grid.rs:270-277 | the stack grows by exactly the neighbours that are inside, unvisited and satisfy the predicate, taken in `STEPS` order, and each of them becomes visited |
| Grids.Grid.PushOrderFacts | src/grid.rs:271-276 | every neighbour pushed is new, inside, adjacent and satisfies the predicate, and every such neighbour is pushed or was visited before |
| Grids.Grid.PushedOfOrder | src/grid.rs:271-276 | pushing in `STEPS` order is a valid step of the flood |
| Grids.Grid.Flood | src/grid.rs:260-280 | outside start: nothing changes; otherwise exactly the cells reachable from the start through cells whose original value satisfies the predicate (and the start) get the value, and every other cell keeps its own |
| Grids.Grid.FloodStart | src/grid.rs:264-268 | the flood invariant holds with only the start on the stack |
| Grids.Grid.FloodStep | src/grid.rs:269-278 | one pop-and-push round keeps the flood invariant and shrinks the measure |
| Grids.Grid.NewlyVisited | src/grid.rs:271-276 | a cell pushed from a reachable cell is reachable and, unless it is the start, passable |
| Grids.Grid.NeighbourQueued | src/grid.rs:270-277 | after a round every passable neighbour of the popped cell has been queued or is the start |
| Grids.Grid.FloodEnd | src/grid.rs:269-279 | once the stack is empty, the painted cells are exactly the reachable ones |
| Grids.ReachableAlong | src/grid.rs:270-277 | following a walk from a reachable cell reaches its end |
| Grids.ReachableTrans | src/grid.rs:270-277 | reachability is transitive |
| Grids.ReachableSym | src/grid.rs:270-277 | reachability within a set is symmetric |
| Grids.ClosedHoldsReachable | src/grid.rs:270-277 | a set holding the start and closed under steps holds every reachable cell |
| Grids.WalkAvoids | src/grid.rs:270-277 | a walk from a reachable cell avoids every cell the start cannot reach |
| Grids.ReachableShrink | src/grid.rs:270-277 | removing unreachable cells does not change reachability |
| Grids.Dist | src/day18.rs:77-98 | the least number of steps of a walk to a reachable cell |
| Grids.LeastWithin | src/day18.rs:77-98 | among walks of at most `n` steps there is a shortest one |
| Grids.WithinShrink | src/day18.rs:77-98 | removing unreachable cells does not change any distance |
| Grids.DistanceUnique | src/day18.rs:77-98 | a cell has one distance only |
| Grids.DistanceZeroStart | src/day18.rs:77-98 | only the start is at distance 0 |
| Grids.Parse | src/grid.rs:222-239 | `Ok` iff the lines after the leading empty ones all have the same length; the grid is then the lines, row by row |
| Grids.FoldLines | src/grid.rs:223-232 | the fold succeeds iff the lines are rectangular, with the width of the last line and all characters concatenated |
| Grids.FromLines | src/grid.rs:222-239 | `parse` on a list of lines: `Ok` iff rectangular, and then the grid has those rows |
| Grids.FirstNonEmpty | src/grid.rs:226 | the index of the first non-empty line: all lines before it are empty |
| Grids.FlattenRow | src/grid.rs:230-233 | row `y` of the concatenated storage is line `y` |
| Grids.FlattenCell | src/grid.rs:230-233 | cell `(x, y)` of the concatenated storage is character `x` of line `y` |
| Day01.Pairs | src/day01.rs:11-12 | one pair per line containing a space, in line order, each value a `usize` |
| Day01.Swapped | src/day01.rs:21-24 | the input with its two columns exchanged |
| Day01.Sort | src/day01.rs:16-17 | ascending, with the same elements |
| Day01.SortedUnique | src/day01.rs:16-17 | a sorted permutation is unique, so the library's algorithm does not matter |
| Day01.SortedHeads | src/day01.rs:16-17 | two sorted lists with the same elements start with the same, least, one |
| Day01.SortedTail | src/day01.rs:16-17 | the tail of a sorted list is sorted and holds the other elements |
| Day01.Collect | src/day01.rs:9-15 | the two lists are the first and second values of the parsed pairs |
| Day01.GetLists | src/day01.rs:8-19 | both lists, of equal length, sorted and permutations of the two columns |
| Day01.PairsSnoc | src/day01.rs:11-15 | one more line adds its pair, if it has a space, at the end |
| Day01.TotalDistanceSymmetric | src/day01.rs:23 | the summed distance does not depend on which list comes first |
| Day01.TotalDistanceZeroIffEqual | src/day01.rs:23 | lists of one length are at distance zero iff they are equal |
| Day01.ColumnsSwapped | src/day01.rs:21-24 | swapping the columns of the input leaves the answer unchanged |
| Day01.Star1 | src/day01.rs:21-24 | the sum of the distances between the sorted columns |
| Day02.ReportSafe | src/day02.rs:10-30 | a zero or too large first difference makes a report unsafe; a safe report has every later difference in the range the first one chose |
| Day02.Levels | src/day02.rs:11-13 | the levels are the report's words read as `i64` |
| Day02.Parse64 | src/day02.rs:13 | a value read is an `i64` |
| Day02.Parse64OfText | src/day02.rs:13 | every `i64` reads back from its decimal form |
| Day02.AllInRangeIsStepsIn | src/day02.rs:24-29 | the scan of later differences holds iff every difference of the levels is in range |
| Day02.ReportSafeIsSafe | src/day02.rs:10-30 | safe iff all differences are in `1..=3` or all in `-3..=-1` |
| Day02.LineSafeIsSafe | src/day02.rs:10-30 | `line_safe` holds iff the line's levels are safe by that rule |
| Day02.StepsInCons | src/day02.rs:14-29 | prepending a level keeps the rule iff its difference to the next is in range |
| Day02.SafeCount | src/day02.rs:6-8 | at most the number of lines |
| Day02.SafeCountAppend | src/day02.rs:6-8 | the count over two blocks of lines is the sum of their counts |
| Day02.CountSafe | src/day02.rs:6-8 | the number of safe reports, at most the number of lines |
| Day04.DirBytes | src/day04.rs:32-40 | at most `n` bytes, read along the ray while the next point is inside |
| Day04.MatchCount | src/day04.rs:43-45 | the number of agreeing positions is at most either length |
| Day04.IsGridStringIff | src/day04.rs:42-47 | from an inside start, the string is found iff the cells along the ray exist and spell it |
| Day04.DirHits | src/day04.rs:22-25 | the number of directions spelling `XMAS` from a point, at most eight |
| Day04.DirHitsCount | src/day04.rs:22-25 | the per-point count is the number of its (point, direction) hits |
| Day04.HitSetSplit | src/day04.rs:22-25 | the hits of a list of points split into those of its last point and the rest |
| Day04.HitsOverCount | src/day04.rs:22-25 | summing over distinct points counts each hit once |
| Day04.PositionsDistinct | src/grid.rs:132-134 | positions never repeat |
| Day04.HitSetStep | src/day04.rs:22-25 | the hits of one point over the first `n` directions add direction `n - 1` exactly when it spells `XMAS` |
| Day04.Star1 | src/day04.rs:10-26 | `star1` is the number of (inside point, direction) pairs spelling `XMAS` |
| Day04.MasAt | src/day04.rs:54-57 | next to an `A`, `MAS` from `q` in direction `d` iff the three cells hold it |
| Day04.IsXMasIsCrossedMas | src/day04.rs:49-58 | the X-MAS shape is two `MAS` crossing at an `A` on the diagonals, in either direction |
| Day04.XMasCount | src/day04.rs:29 | at most the number of positions |
| Day04.XMasCountIsCard | src/day04.rs:29 | over distinct points, the number of centres |
| Day04.Star2 | src/day04.rs:28-30 | `star2` is the number of inside points that are X-MAS centres, each counted once |
| Day05.ParseI32 | src/day05.rs:29 | `Ok` iff the text is an `i32`, with that value |
| Day05.ParseRule | src/day05.rs:24-29 | a trimmed line without `\|` is the `invalid line` error; a rule read has two `i32` pages |
| Day05.ParseUpdate | src/day05.rs:33 | an update read is non-empty and holds only `i32` pages |
| Day05.RulesEnd | src/day05.rs:23-27 | the rule section ends at or before the end of the lines |
| Day05.RulesEndMeaning | src/day05.rs:23-27 | the rule lines are not blank, and the line after them, if any, is |
| Day05.RuleWithoutBar | src/day05.rs:28 | a rule line without `\|` makes the whole parse fail |
| Day05.ParsePrintJob | src/day05.rs:15-37 | the result is the job read from the lines: rules until the first blank line, updates after it |
| Day05.RuleRead | src/day05.rs:24-29 | a line whose trimmed text splits at `\|` into two decimal forms of `i32`s reads as that rule |
| Day05.ReadJob | src/day05.rs:21-36 | both loops together read the job |
| Day05.ReadSection | src/day05.rs:23-30 | the rule loop collects the lines before the first blank one, stopping at the first error |
| Day05.ReadUpdates | src/day05.rs:32-34 | the update loop collects every remaining line, stopping at the first error |
| Day05.RuleTextRead | src/day05.rs:28-29 | the written form of a rule reads back as that rule |
| Day05.UpdateTextRead | src/day05.rs:33 | the written form of an update reads back as that update |
| Day05.JobRoundTrip | src/day05.rs:15-37 | reading the written form of a job (rules, a blank line, updates) gives the job back |
| Day05.RuleLinesRead | src/day05.rs:23-30 | written rule lines read back as the rules |
| Day05.UpdateLinesRead | src/day05.rs:32-34 | written update lines read back as the updates |
| Day05.JobOfShape | src/day05.rs:21-36 | rule lines, a blank line and update lines are read as the job they spell |
| Day05.SetBit | src/day05.rs:42 | `m \|= 1 << y` sets bit `y`, keeps every other bit and stays within `u128` |
| Day05.RecordsStep | src/day05.rs:41-43 | recording one more rule sets its bit and keeps the record of the others |
| Day05.PagesAfter | src/day05.rs:40-43 | bit `y` of `pages_after[x]` is set iff some rule says `x` before `y` |
| Day05.Mask | src/day05.rs:46-49 | the scan state fits in `u128` |
| Day05.MaskBit | src/day05.rs:46-49 | a bit of the mask is set iff that page occurs in the list |
| Day05.PageCheck | src/day05.rs:50 | the check of one page passes iff no rule puts it before an earlier page |
| Day05.OrderOkFrom | src/day05.rs:46-50 | the scan from position `k` passes iff no page from `k` on breaks a rule |
| Day05.OrderOkIsInOrder | src/day05.rs:45-50 | the bitmask check accepts an update iff no page comes after a page that a rule puts after it |
| Day05.AcceptedSumIsMiddleSum | src/day05.rs:45-52 | the sum of the accepted middles is the sum of middle pages of the updates in order |
| Day05.Star1 | src/day05.rs:39-53 | the sum of the middle pages of the updates that break no rule |
| Day06.Next | src/day06.rs:58-67 | a step goes to a free inside cell next to the old one, facing away from it |
| Day06.TurnGoes | src/day06.rs:63-66 | a step taken by the turning loop lands on a free inside neighbour, facing away from the old cell |
| Day06.PathLink | src/day06.rs:46-68 | each state of a walk is the step taken from the state before it |
| Day06.PathSnoc | src/day06.rs:46-68 | a walk extended by the step from its last state is a walk |
| Day06.PathFront | src/day06.rs:46-68 | a walk without its last state is a walk, whose last state steps to the dropped one |
| Day06.PathsAgree | src/day06.rs:46-68 | the walk is deterministic: two walks from one state agree as far as both go |
| Day06.StaysInLoop | src/day06.rs:52-55 | a walk from the start of a loop never leaves the states of the loop |
| Day06.LoopGoesOn | src/day06.rs:52-55 | every walk from the start of a loop takes a further step |
| Day06.LoopsExclusive | src/day06.rs:52-61 | a walk that loops neither leaves the grid nor panics |
| Day06.BitIsShift | src/day06.rs:51 | the mask bit of a direction is `1 << dir.index()` |
| Day06.OrBit | src/day06.rs:52-56 | or-ing in a direction's bit records it, keeps the others, and adds one to the count if new |
| Day06.ZeroUnmarked | src/day06.rs:48 | a mask is zero iff it records no direction |
| Day06.WriteUnset | src/day06.rs:56 | writing a mask changes the measure of unset bits by what the old and new masks contribute |
| Day06.PointsSnoc | src/day06.rs:48-50 | standing on a state adds its point, new iff not stood on before |
| Day06.Masks | src/day06.rs:43 | the masks have one entry per cell of the grid |
| Day06.MasksSnoc | src/day06.rs:56 | one more state or-s its direction's bit into its cell's mask |
| Day06.MaskRecords | src/day06.rs:47-56 | a cell's mask is below 16 and has bit `e` iff the walk stood there facing `e` |
| Day06.MaskZero | src/day06.rs:48 | a cell's mask is zero iff the walk has not stood on it |
| Day06.TurnsTo | src/day06.rs:63-66 | fewer than four quarter turns separate two directions |
| Day06.TurnsToRight | src/day06.rs:63-66 | no turn is needed iff already facing the target; otherwise a right turn saves one |
| Day06.Advance | src/day06.rs:58-67 | one step of `walk` is `Next`, and never spins for ever from a cell with a free side |
| Day06.Walk | src/day06.rs:37-69 | the masks record exactly the states of the one walk from the start, the count is the number of cells it stood on (and of non-zero masks), and the outcome is how that walk ends |
| Day06.Visit | src/day06.rs:47-56 | a state seen before is reported and changes nothing; a new one is recorded, counted if its cell is new, and shrinks the measure |
| Day06.VisitAgain | src/day06.rs:52-55 | a recorded bit means the state is in the walk |
| Day06.VisitNew | src/day06.rs:48-56 | recording a new state gives the masks and count of the longer walk |
| Day06.LoopFound | src/day06.rs:52-55 | a state already recorded closes a loop |
| Day06.Stepped | src/day06.rs:58-67 | a step from the last state extends the walk, and the new cell again has a free side |
| Day06.NonZero | src/day06.rs:25 | at most one per cell |
| Day06.NonZeroWrite | src/day06.rs:56 | writing a mask changes the non-zero count by what the old and new masks contribute |
| Day06.PathInside | src/day06.rs:58-67 | a walk from an inside cell stays inside |
| Day06.MasksCount | src/day06.rs:48-50 | the number of points stood on is the number of non-zero masks |
| Day06.WalkCount | src/day06.rs:48-50 | `count` equals the number of non-zero masks |
| Day06.StepsOn | src/day06.rs:46-68 | a walk from the same state as a longer walk goes on |
| Day06.StopBounds | src/day06.rs:46-68 | every walk from the start of a walk that stops is a prefix of it |
| Day06.StopsAgree | src/day06.rs:46-68 | two walks from one state that both stop are the same |
| Day06.StopsAgain | src/day06.rs:46-68 | every walk from that start goes on or stops in the same way |
| Day06.ExitsExclusive | src/day06.rs:58-61 | a walk that leaves the grid neither panics nor loops |
| Day06.EndedVisits | src/day06.rs:46-68 | a walk that exits or loops stands on exactly the points any walk from its start stands on |
| Day06.VisitedCells | src/day06.rs:46-68 | those points are the positions the walk from the start visits |
| Day06.FindStart | src/day06.rs:11-18 | `None` iff no cell holds `^`; otherwise the first such position in row order |
| Day06.HarmlessPrefix | src/day06.rs:24-32 | one more harmless cell keeps the prefix harmless |
| Day06.HarmlessAll | src/day06.rs:24-32 | every cell of a harmless sequence is harmless |
| Day06.HarmlessGrid | src/day06.rs:24-32 | if every position is harmless, every inside cell is |
| Day06.TrapsPrefix | src/day06.rs:24-32 | one more cell adds one to the count iff an obstacle there traps the guard |
| Day06.TryObstacle | src/day06.rs:25-31 | `None` iff the cell is a candidate whose walk panics; otherwise whether an obstacle there traps the guard |
| Day06.CountTraps | src/day06.rs:24-32 | `None` iff some cell's obstacle walk panics; otherwise the number of trapping cells |
| Day06.Stars | src/day06.rs:20-35 | the number of cells the plain walk visits, and the number of visited cells other than the start where an obstacle makes the guard loop; `None` iff a walk panics |
| Day06.CandidateOf | src/day06.rs:25-33 | an inside cell other than the start is an obstacle candidate exactly when the walk's marks record it |
| Day07.PowerAboveDigits | src/day07.rs:100-102 | for a positive operand the power found is `10` to its number of digits |
| Day07.ConcatDigits | src/day07.rs:100-104 | for positive operands `concat` writes the digits of `l` and then those of `r` |
| Day07.ConcatZero | src/day07.rs:100-104 | `concat(l, 0)` is `l`, since `1 > 0` already |
| Day07.AddMulImpliesConcat | src/day07.rs:36-93 | every line part one accepts, part two accepts |
| Day07.MaskOps | src/day07.rs:44-46 | a counter's low `n` bits as `n` binary operator codes |
| Day07.FoldMaskIsFold | src/day07.rs:44-47 | folding with the counter's bits is folding with the codes they stand for |
| Day07.MaskRoundTrip | src/day07.rs:38 | every choice of `n` binary codes is the low bits of exactly one counter below `2^n` |
| Day07.IsAddMul | src/day07.rs:36-54 | true iff fewer than 31 operators are needed and some choice of `+` and `*` gives the test value (the `i32` range `0..1 << 31` is empty) |
| Day07.Pow3 | src/day07.rs:60-92 | positive |
| Day07.ValBound | src/day07.rs:77-88 | a reading of `n` ternary digits is below `3^n` |
| Day07.ValInjective | src/day07.rs:77-88 | two readings of one length are equal only for equal digits |
| Day07.ValAllTwos | src/day07.rs:89-91 | all digits at 2 is the last reading, `3^n - 1` |
| Day07.ValIncrement | src/day07.rs:77-88 | zeroing the 2s below a digit and raising it adds one to the reading |
| Day07.Advance | src/day07.rs:77-88 | the carry loop keeps ternary digits, adds one to the reading, or reports a carry out only when every digit was 2 |
| Day07.IsAddMulConcat | src/day07.rs:56-93 | true iff some choice of `+`, `*` and `concat` gives the test value |
| Day07.TriedNext | src/day07.rs:72-88 | a reading that missed extends the tried readings by one |
| Day07.TriedAll | src/day07.rs:89-91 | once all `3^n` readings were tried, no choice is left |
| Day07.ParseLine | src/day07.rs:23-34 | a line without `:` is the `missing ':'` error; `Ok` iff the line splits at its first `:`, the left side is an `i64` and every word on the right is an `i64`, and then the line is those values |
| Day07.ParseOperands | src/day07.rs:29-32 | `Ok` iff every word is an `i64`, and then their values in order |
| Day07.ParseLineRoundTrip | src/day07.rs:23-34 | a line of `i64` numbers parses back from its text |
| Day07.ParseLineOf | src/day07.rs:23-34 | the pieces of a line that parse give that line |
| Day07.OperandsText | src/day07.rs:29-32 | the operands after the colon split into their decimal forms and parse back |
| Day07.ParseOperandsOfInts | src/day07.rs:29-32 | decimal forms of `i64` values parse back to them |
| Day07.ParseLines | src/day07.rs:23-34 | `Ok` iff every line parses, and then one `Line` per line in order |
| Day07.ParseData | src/day07.rs:4 | `parse_data`: `Ok` iff every input line parses, and then the lines' values in order |
| Day07.IntToStringShape | src/day07.rs:24-30 | decimal forms hold no colon and are single words |
| Day08.OfKind | src/day08.rs:36-40 | exactly the points of the list that hold the character |
| Day08.AntennasOf | src/day08.rs:36-44 | a key for each alphanumeric character present, listing its points in order |
| Day08.FindAntennas | src/day08.rs:35-45 | each frequency's antennas in row-major order |
| Day08.FindAntennasKeys | src/day08.rs:35-45 | the frequencies are the alphanumeric characters of the map |
| Day08.Pairs | src/day08.rs:13-18 | the pairs of an antenna with a later one in its list |
| Day08.PairsLength | src/day08.rs:13-18 | `n (n - 1) / 2` pairs: each unordered pair once |
| Day08.Antinodes1Iff | src/day08.rs:47-50 | the inside points in line with the pair, twice as far from one antenna as from the other |
| Day08.Antinodes1Symmetric | src/day08.rs:47-50 | the same antinodes whichever antenna comes first |
| Day08.Ray | src/day08.rs:54-61 | starts at `p` and stays inside |
| Day08.RayOnly | src/day08.rs:54-61 | every point of the walk is a whole number of steps on from `p` |
| Day08.RayHas | src/day08.rs:54-61 | every inside point a whole number of steps on is on the walk |
| Day08.RayIff | src/day08.rs:54-61 | the walk holds exactly the inside points a whole number of steps on from `p` |
| Day08.Antinodes2Only | src/day08.rs:52-63 | each antinode of part two is `x + k (x - y)` for a whole `k` |
| Day08.Antinodes2Has | src/day08.rs:52-63 | each inside point `x + k (x - y)` is one |
| Day08.Antinodes2Swap | src/day08.rs:52-63 | the same antinodes whichever antenna comes first |
| Day08.Antinodes2Iff | src/day08.rs:52-63 | the antinodes of part two are the inside points `x + k (x - y)` for every whole `k` |
| Day08.AntinodeSeq | src/day08.rs:20-26 | the antinodes of all the pairs |
| Day08.FindAntennasWellFormed | src/day08.rs:35-45 | each list holds distinct inside points of its frequency |
| Day08.PairsOfDistinct | src/day08.rs:13-18 | the pairs taken from a list of distinct inside points are pairs of distinct inside points |
| Day08.OfKindDistinct | src/day08.rs:36-40 | the points of one kind are distinct |
| Day08.PairedSomeWay | src/day08.rs:13-18 | two antennas of one list form a pair in one order or the other |
| Day08.InSetOnly | src/day08.rs:12-33 | every antinode counted comes from two distinct antennas of one list |
| Day08.InSetHas | src/day08.rs:12-33 | every antinode of a pair of one list is counted |
| Day08.FoundIff | src/day08.rs:35-45 | an antenna is listed under `c` iff it is an inside point holding the alphanumeric `c` |
| Day08.Star1Meaning | src/day08.rs:12-33 | part one counts the inside points in line with two antennas of one frequency, twice as far from one as from the other |
| Day08.Star2Meaning | src/day08.rs:12-33 | part two counts the inside points `a + k (a - b)` for two antennas `a`, `b` of one frequency |
| Day08.Star2Has | src/day08.rs:12-33 | any such point is counted |
| Day08.AntinodesInside | src/day08.rs:12-33 | every antinode counted is inside the map |
| Day08.InsideCard | src/day08.rs:12-33 | a set of inside points has at most `dx * dy` members |
| Day08.Star | src/day08.rs:12-33 | the number of distinct antinodes, at most the number of cells of the map |
| Day09.DiskmapFrom | src/day09.rs:75-96 | at most one entry per character |
| Day09.DigitRun | src/day09.rs:81-85 | the leading run of digits is at most the whole text |
| Day09.DiskmapFromEntries | src/day09.rs:75-96 | one entry per leading digit, with that digit as length, alternating files and free space, files numbered on from the start id |
| Day09.DiskmapEntries | src/day09.rs:70-97 | `diskmap` numbers the files `0, 1, 2, ...` at the even entries, marks the odd ones free, and stops at the first non-digit |
| Day09.Repeat | src/day09.rs:12 | `n` copies of `v` |
| Day09.FreeIdx | src/day09.rs:15-18 | all the free positions, ascending |
| Day09.FileIdxRev | src/day09.rs:19-23 | all the file positions, descending |
| Day09.CountsAdd | src/day09.rs:15-23 | every block is free or a file |
| Day09.FreeIdxBelow | src/day09.rs:15-18 | the free positions below `f` come first, as many as the free blocks before `f` |
| Day09.FileIdxAbove | src/day09.rs:19-23 | the file positions at or above `f` come first, as many as the file blocks from `f` on |
| Day09.Swaps | src/day09.rs:25-31 | the swaps keep the length of the disk |
| Day09.SwapStop | src/day09.rs:25 | `take_while` lets through a prefix of the pairs |
| Day09.SwapStopIs | src/day09.rs:25 | the pairs swapped are the free positions below the file count, against the file positions at or above it |
| Day09.SwapStopFrom | src/day09.rs:25 | the stop is at the first pair out of order |
| Day09.SwapLoop | src/day09.rs:25-31 | the fold performs exactly the swaps of the pairs `take_while` lets through |
| Day09.SwapsUntouched | src/day09.rs:25-31 | a position named by no swap keeps its block |
| Day09.SwapsPair | src/day09.rs:25-31 | each swapped pair holds each other's blocks |
| Day09.FirstTime | src/day09.rs:25-31 | no position is swapped twice |
| Day09.SwapKeeps | src/day09.rs:28 | a swap keeps the multiset of blocks |
| Day09.SwapsPermute | src/day09.rs:25-31 | the swaps only rearrange the blocks |
| Day09.SwapsCompact | src/day09.rs:25-31 | afterwards every file block lies before every free block, and files already in front stay put |
| Day09.CompactAll | src/day09.rs:25-31 | the compaction holds at every position |
| Day09.CompactAt | src/day09.rs:25-31 | one position after the swaps is a file iff it is below the file count |
| Day09.Star1 | src/day09.rs:10-36 | the checksum of the disk after the swaps |
| Day09.LayoutDisjoint | src/day09.rs:39-49 | the layout's files and free spans are apart and all before the end |
| Day09.LayoutFiles | src/day09.rs:39-49 | file `j` of the layout has id `j` and the length of entry `2j` |
| Day09.FirstFit | src/day09.rs:51 | the least start below `pos` of a free span at least `len` long, `None` iff there is none |
| Day09.MoveAll | src/day09.rs:50-58 | the moves keep the number of files |
| Day09.MoveFiles | src/day09.rs:50-58 | the loop over the files, highest id first, yields the file positions of `MoveAll` |
| Day09.MoveStepLeftmost | src/day09.rs:51-57 | a file moves only to the least start below it of a span that holds it, and stays when there is none |
| Day09.StepFilesApart | src/day09.rs:51-57 | moving a file keeps the files apart |
| Day09.StepFreeApart | src/day09.rs:52-56 | the free spans after a move are the old ones without the one taken, plus the leftover |
| Day09.StepFilesClear | src/day09.rs:51-57 | after a move no file meets a free span |
| Day09.MoveAllDisjoint | src/day09.rs:50-58 | all the moves keep the disk consistent |
| Day09.MoveAllKeeps | src/day09.rs:50-58 | the moves keep each file's id and length and never move a file right |
| Day09.MovedLengths | src/day09.rs:50-58 | files at least one block long stay so after the moves |
| Day09.SpanSumTwice | src/day09.rs:62 | twice the sum of `n` positions from `lo` is `2 lo n + n (n - 1)` |
| Day09.FileTermIsSpanSum | src/day09.rs:61-64 | a file's term is its id times the sum of the positions it covers |
| Day09.InputFiles | src/day09.rs:39-49 | the files are numbered `0, 1, 2, ...` and each at least one block long |
| Day09.Star2Moves | src/day09.rs:50-58 | after the moves no two files share a block, no file meets a free span, and each file keeps its id and length and ends no further right |
| Day09.Star2 | src/day09.rs:38-66 | the checksum of the files after the moves |
| Day10.Height | src/day10.rs:23 | heights are the digits `0` to `9` |
| Day10.StepEndsHas | src/day10.rs:24-33 | a trail end through the first `i` steps is a trail end through one of them |
| Day10.EndsHaveClimbs | src/day10.rs:22-34 | every trail end is the last cell of a trail climbing by one from the cell |
| Day10.ClimbCons | src/day10.rs:24-33 | a cell one height below the start of a trail, next to it, starts a trail |
| Day10.ClimbsReachEnds | src/day10.rs:22-34 | the last cell of every trail is a trail end |
| Day10.EndsAreClimbs | src/day10.rs:16-36 | the distinct trail ends of a trailhead are exactly the `9` cells its trails reach |
| Day10.PrependHas | src/day10.rs:24-30 | a trail is in the prepended set iff it starts at the cell and its tail is in the set |
| Day10.PrependCard | src/day10.rs:24-30 | putting a cell in front of every trail loses no trail |
| Day10.PrependEnding | src/day10.rs:24-30 | prepending commutes with selecting the trails that end at a cell |
| Day10.TrailsShape | src/day10.rs:22-33 | a trail from height `k` has `10 - k` cells and starts where it is built |
| Day10.StepTrailsShape | src/day10.rs:24-33 | a trail through the first `i` steps starts at the cell, takes one of those steps and goes on as a trail one height up |
| Day10.StepTrailsDisjoint | src/day10.rs:24-33 | trails through different steps are different trails |
| Day10.StepsDistinct | src/grid.rs:49-52 | the four steps lead to four different cells |
| Day10.TrailSplitAt | src/day10.rs:24-33 | the trails ending at a cell through `i` steps are those through `i - 1` steps plus those of step `i - 1` |
| Day10.TrailSplitTotal | src/day10.rs:24-33 | the trails through `i` steps number those through `i - 1` plus those of step `i - 1` |
| Day10.UnionCounts | src/day10.rs:28 | disjoint trail sets add up, in total and for each end |
| Day10.AddAt | src/day10.rs:28 | a sum of multisets of ends holds a cell as often as its parts together |
| Day10.AddTotal | src/day10.rs:35 | a sum of multisets of ends is as large as its parts together |
| Day10.ReachCounts | src/day10.rs:26-30 | a step onto a cell at height `k` reaches each `9` once for each trail from there that ends at it |
| Day10.StepCounts | src/day10.rs:24-33 | the ends through the first `i` steps hold each cell once per trail through those steps that ends there |
| Day10.ReachTotal | src/day10.rs:26-30 | a step onto a cell reaches as many ends as there are trails from it |
| Day10.StepTotal | src/day10.rs:24-33 | the ends through the first `i` steps are as many as the trails through them |
| Day10.ClimbSplit | src/day10.rs:23-26 | a climb of two or more cells is a step from its first cell onto a climb one height up from the next |
| Day10.StepTrailsHas | src/day10.rs:24-33 | a trail whose first step is among the first `i` is a trail through them iff its tail is a trail one height up |
| Day10.TrailsAreClimbs | src/day10.rs:22-34 | the trails built from a cell are exactly the climbs by one from it |
| Day10.EndsCountTrails | src/day10.rs:16-36 | a trailhead's ends hold each `9` once for every trail ending there, as many ends as trails, and the trails are exactly the climbs |
| Day10.ScoreCountsTrails | src/day10.rs:16-36 | the second score is the number of trails, the first the number of their distinct last cells |
| Day10.Pow5 | src/day10.rs:22-34 | positive |
| Day10.PushSteps | src/day10.rs:23-33 | the peaks counted plus the ends still owed by the worklist grow by exactly the popped cell's trail ends, and the weight grows boundedly |
| Day10.StepMiss | src/day10.rs:26 | a step onto a cell of the wrong height adds no trail end |
| Day10.StepPeak | src/day10.rs:27-28 | a step onto a `9` adds that one trail end to the peaks |
| Day10.StepPush | src/day10.rs:29-30 | a step onto a lower cell defers its trail ends to a new work item |
| Day10.LevelOfHeight | src/day10.rs:23 | heights and levels convert back |
| Day10.WorkSnoc | src/day10.rs:30 | a new work item adds its trail ends and its weight |
| Day10.TrailheadScore | src/day10.rs:16-36 | `(0, 0)` off a `0`; otherwise the number of distinct `9` cells reached and the number of trails, each trail a climb counted once, as `peaks` counts them with multiplicity |
| Day10.Stars | src/day10.rs:10-14 | both scores summed over every position |
| Day10.SumScoresSnoc | src/day10.rs:11-13 | one more position adds its score |
| Day11.Pow10Squared | src/day11.rs:46-47 | the products the search compares against are powers of ten |
| Day11.SplitSearchIsHalves | src/day11.rs:46-53 | once every stone with fewer than `2j + 1` digits is ruled out, the search yields the halves |
| Day11.SplitStoneIsHalves | src/day11.rs:45-54 | `split_stone` splits exactly the stones with an even number of digits, into their halves |
| Day11.HalvesOdd | src/day11.rs:45-54 | a stone with an odd number `2j + 1` of digits, or the stone 0, does not split |
| Day11.HalvesEven | src/day11.rs:45-54 | a stone with `2j + 2` digits splits at `10^(j+1)` into its halves |
| Day11.SplitHalves | src/day11.rs:52 | the halves written one after the other give back the stone |
| Day11.BlinkOne | src/day11.rs:26-32 | a stone becomes one or two stones |
| Day11.BlinkAppend | src/day11.rs:26-32 | stones blink independently |
| Day11.BlinksAppend | src/day11.rs:26-32 | rows blink independently for any number of blinks |
| Day11.CountStep | src/day11.rs:26-32 | one step of the recursion counts what the stone becomes |
| Day11.CountIsLength | src/day11.rs:18-35 | the count of `blink_cached` is the number of stones one stone becomes after `count` blinks |
| Day11.SumCountIsLength | src/day11.rs:37-43 | summed over a row, the number of stones the row becomes |
| Day11.Memo.constructor | src/day11.rs:38 | the memo starts empty |
| Day11.Memo.BlinkCached | src/day11.rs:18-35 | the count of the stone after `count` blinks; the memo keeps only true counts and only grows |
| Day11.BlinkStones | src/day11.rs:37-43 | the number of stones after `blink` blinks |
| Day11.HalvesExamples | src/day11.rs:66-70 | the splits of `1`, `10`, `99` and `999` in the tests |
| Day11.CountExamples | src/day11.rs:66-70 | the single-stone counts of the tests: 1, 1, 2, 2, 1 |
| Day11.BlinkExample | src/day11.rs:71-72 | `0 1 10 99 999` becomes `1 2024 1 0 9 9 2021976` |
| Day11.BlinkStonesExample | src/day11.rs:73 | so that row gives 7 stones after one blink |
| Day11.ParseWords | src/day11.rs:12-15 | `Ok` iff every word is a `u64`, and then their values in order |
| Day11.ParseWordsOfNats | src/day11.rs:12-15 | decimal forms of `u64` values parse back to them |
| Day11.ParseStonesRoundTrip | src/day11.rs:11-16 | stones written with single spaces between them parse back |
| Day11.ParseStones | src/day11.rs:11-16 | `parse_stones`: `Ok` iff every whitespace-separated word is a `u64`, and then their values in order |
| Day12.Pack | src/day12.rs:22 | the plot and the fence count both come back out of the packed cell, which fits in 16 bits |
| Day12.Fences | src/day12.rs:15-21 | at most one fence per step |
| Day12.FencesExtremes | src/day12.rs:15-21 | no fence iff every neighbour is the same plot; `k` fences iff every one differs or is off the grid |
| Day12.FenceCount | src/day12.rs:45 | the bits above the low eight, `v >> 8`: the largest multiple of 256 not above `v`, divided by 256 |
| Day12.PackGarden | src/day12.rs:12-23 | every cell holds its plot packed with its fence count, at its own position |
| Day12.PackedAt | src/day12.rs:13-23 | storage packed position by position holds every cell packed |
| Day12.ParseGarden | src/day12.rs:10-25 | `Ok` iff `Grid::parse` succeeds, and then the packed garden of that grid |
| Day12.FenceSumRemove | src/day12.rs:45 | the perimeter sum does not depend on the order the cells are taken |
| Day12.FenceSumAdd | src/day12.rs:45 | a new cell adds its own fence count |
| Day12.Neighbours | src/day12.rs:46-53 | exactly the unmarked neighbours of the same plot are marked and pushed |
| Day12.Remark | src/day12.rs:49-51 | marking one more unmarked cell keeps the marks matching the visited cells |
| Day12.DfsStart | src/day12.rs:38-39 | the search invariant holds with the seed marked and on the stack |
| Day12.DfsStep | src/day12.rs:43-54 | a pop-and-push round keeps the search invariant; the popped cell is new and in the region |
| Day12.Unvisited | src/day12.rs:49 | an unmarked cell has not been visited |
| Day12.DoneGrows | src/day12.rs:44-45 | finishing a cell adds one to the area and its fences to the perimeter |
| Day12.DfsEnd | src/day12.rs:43-54 | when the stack is empty, the cells done are the whole flood region |
| Day12.Round | src/day12.rs:43-54 | one round keeps the invariant, keeps the area and perimeter of the cells done, and shrinks what is left |
| Day12.Search | src/day12.rs:38-55 | marks exactly the flood region and returns its area and perimeter |
| Day12.FloodStep | src/day12.rs:32-56 | a marked or outside seed costs 0 and changes nothing; otherwise the region is marked and its area times perimeter returned |
| Day12.RegionPlot | src/day12.rs:46-53 | every cell of a region is inside and of the seed's plot |
| Day12.CoveredSealed | src/day12.rs:46-53 | a covered cell's same-plot neighbours are covered |
| Day12.RegionWithin | src/day12.rs:29 | the region of a covered cell is all covered |
| Day12.FloodWhole | src/day12.rs:29-35 | with earlier regions marked, the flood from an unmarked cell fills exactly its region |
| Day12.CoverStep | src/day12.rs:29 | one flood step adds its region to the marks and its share to the total |
| Day12.CoverNew | src/day12.rs:29-35 | the flood from an unmarked cell marks its whole region, not covered before |
| Day12.FenceCost | src/day12.rs:27-30 | the summed costs of the flood steps over every position, in order |
| Day12.RegionHasStart | src/day12.rs:43-54 | every inside cell lies in its own region |
| Day12.RegionSame | src/day12.rs:43-54 | two regions that meet are one |
| Day12.SumCostsRemove | src/day12.rs:29 | the sum over regions does not depend on the order |
| Day12.RegionOfCovered | src/day12.rs:29 | the region of a covered cell is among the regions found |
| Day12.CoveredOfRegion | src/day12.rs:29 | each region found lies within the cover |
| Day12.TotalCostSums | src/day12.rs:29 | in `fence_cost`'s order each region is priced exactly once |
| Day12.RegionSetHas | src/day12.rs:29 | each position's region is among the regions found |
| Day12.RegionSetFrom | src/day12.rs:29 | each region found is the region of some position |
| Day12.RegionSetAll | src/day12.rs:29 | the regions of all positions are all the garden's regions |
| Day12.FenceCostIsRegionSum | src/day12.rs:27-30 | `fence_cost` is the sum over the garden's regions, each once, of area times perimeter |
| Day13.FindMinTokensShift | src/day13.rs:55-63 | `Some` iff the estimated presses land exactly on the moved prize, and then 3 tokens per A press and 1 per B press |
| Day13.MulZero | src/day13.rs:62 | a product with a non-zero factor is zero only when the other factor is |
| Day13.MulAway | src/day13.rs:62 | a non-zero multiple is at least as far from zero as the factor |
| Day13.MulDiv | src/day13.rs:41-53 | Euclidean division undoes a multiplication |
| Day13.SolutionTimesDet | src/day13.rs:41-53 | any press counts that hit the prize, times the determinant, are Cramer's numerators |
| Day13.NumeratorsSolve | src/day13.rs:41-53 | press counts whose multiples of the determinant are the numerators hit the prize |
| Day13.CramerSound | src/day13.rs:41-53 | the integral Cramer solution hits the prize |
| Day13.CramerComplete | src/day13.rs:41-53 | with buttons that are not colinear, any hit is the Cramer solution |
| Day13.ExactDiv | src/day13.rs:41-53 | a numerator the divisor divides is the divisor times the quotient |
| Day13.FindMinTokensIsCramer | src/day13.rs:33-64 | with buttons that are not colinear, the check accepts an estimate iff it is the integral Cramer solution |
| Day13.MinTokensExact | src/day13.rs:27-31 | an estimate that finds every integral solution makes `min_tokens_shift` the sum over machines with an integral solution |
| Day13.SampleTokens | src/day13.rs:131-133 | the example's first and third machines pay 280 and 200 tokens, 480 in all; the others have no solution |
| Day13.SampleShifted | src/day13.rs:135-138 | with the prizes moved by 10^13, only the second and fourth machines have a solution |
| Day13.ParseNum | src/day13.rs:102-105 | a parsed number fits in `i32` |
| Day13.ParseDef | src/day13.rs:87-100 | a parsed point has coordinates that fit in `i32` |
| Day13.ParseMachines | src/day13.rs:66-85 | the loop gives what the group reader gives on the input's lines |
| Day13.GroupedShape | src/day13.rs:69-83 | a successful read is groups of three lines, with an empty line between two |
| Day13.ShapeGrouped | src/day13.rs:69-83 | lines of that shape read back as their groups |
| Day13.GroupedStep | src/day13.rs:69-83 | a read that goes on past a group takes the group and an empty line, then reads on |
| Day13.ShapeCons | src/day13.rs:69-83 | a group, an empty line and a shaped rest form a shaped whole |
| Day13.ShapeTail | src/day13.rs:69-83 | past its first group and empty line, a shaped input stays shaped |
| Day13.Blocks | src/day13.rs:113-129 | three lines per machine, with an empty line between two |
| Day13.BlocksAt | src/day13.rs:113-129 | line `4k + r` of the blocks is line `r` of machine `k` |
| Day13.BlocksGap | src/day13.rs:113-129 | line `4k + 3` of the blocks is empty |
| Day13.ParseNumOf | src/day13.rs:102-105 | a number written after its axis letter and sign parses back |
| Day13.ParseNumTrimmed | src/day13.rs:102-105 | a text that trims down to the decimal form of an `i32` reads as that value |
| Day13.ParseDefOf | src/day13.rs:87-100 | a written description line parses back to its point |
| Day13.CoordsShape | src/day13.rs:95-98 | written coordinates start with `X`, end in a digit, and the first holds no comma |
| Day13.ParseDefOfParts | src/day13.rs:87-100 | a line whose prefix, trimmed rest and two numbers parse gives its point |
| Day13.CoordsTrim | src/day13.rs:95 | the colon and the space after the prefix are trimmed away, and nothing at the end |
| Day13.GroupOfLines | src/day13.rs:70-73 | three lines that describe a machine parse to it |
| Day13.GroupOfText | src/day13.rs:70-73 | each machine written out parses back |
| Day13.MachinesOfText | src/day13.rs:66-85 | machines written out as lines parse back |
| Day13.ParseMachinesRoundTrip | src/day13.rs:66-85 | the text of machines whose numbers fit in `i32` parses back to the same machines |
| Day13.MachineLineShape | src/day13.rs:113-129 | each description line is free of line breaks and ends in a digit |
| Day14.ParseCoords | src/day14.rs:27-34 | `Ok` iff the prefix is stripped, a comma splits the rest and both halves parse as `i32` |
| Day14.ParseCoord | src/day14.rs:31 | a coordinate read is an `i32` |
| Day14.ParseRobot | src/day14.rs:18-25 | `Ok` iff the line splits at its first space into a `p=` pair and a `v=` pair, and then the robot is those pairs |
| Day14.ParseCoordsOf | src/day14.rs:27-34 | a prefix and two `i32`s written with a comma parse back |
| Day14.ParseRobotRoundTrip | src/day14.rs:18-25 | every robot with `i32` coordinates parses back from its `p=x,y v=x,y` line |
| Day14.Wrap | src/day14.rs:36-43 | for a positive width the result is in `0..w` and is the Euclidean remainder of `v` |
| Day14.WrapExamples | src/day14.rs:82-85 | the four wrap examples of the tests |
| Day14.Quadrant | src/day14.rs:51-67 | no quadrant iff on a middle line; otherwise one of four, odd iff right of the middle, at least 2 iff below it |
| Day14.Quadrants | src/day14.rs:48-67 | at most one quadrant per robot, each below 4 |
| Day14.QuadrantsOfRobots | src/day14.rs:48-67 | every quadrant counted is some robot's, and every robot off the middle lines is counted |
| Day14.Tally | src/day14.rs:68-71 | the four counts are the occurrences of each quadrant |
| Day14.TallySum | src/day14.rs:68-71 | the four counts add up to the robots off the middle lines |
| Day14.SafetyFactor | src/day14.rs:45-74 | the product of the number of robots in each quadrant |
| Day14.MiddleExcluded | src/day14.rs:52-65 | robots all on a middle line give no quadrants |
| Day15.CellOf | src/day15.rs:25 | a cell of the map storage, and nothing exactly outside the grid |
| Day15.RayNext | src/day15.rs:39 | one step and then `i` more is `i + 1` steps along the ray |
| Day15.BoxRun | src/day15.rs:39-41 | the first cell along the ray that is not a box: every cell before it is a box |
| Day15.Push | src/day15.rs:38-50 | a push keeps the storage the shape of the grid |
| Day15.Robot | src/day15.rs:23-36 | a move keeps the storage the shape of the grid |
| Day15.RunMoves | src/day15.rs:16 | running the moves keeps the storage the shape of the grid |
| Day15.PushChangesTwo | src/day15.rs:42-47 | a push that succeeds writes a box past the run and floor at its start, and changes no other cell |
| Day15.PushPermutes | src/day15.rs:42-47 | a push never creates or destroys a box, a wall or floor |
| Day15.RobotMovesOneStep | src/day15.rs:23-36 | a move leaves the robot in place or one step on |
| Day15.RobotPermutes | src/day15.rs:23-36 | a move permutes the cells of the warehouse |
| Day15.RobotStaysOnFloor | src/day15.rs:23-36 | a robot on floor stays on floor after a move |
| Day15.RunKeepsFloor | src/day15.rs:16 | after any moves the robot is on floor and the cells are a permutation of the start |
| Day15.TryPushBoxes | src/day15.rs:38-50 | returns whether the run of boxes ends in floor; then the storage is the pushed one, otherwise unchanged |
| Day15.StepRobot | src/day15.rs:23-36 | the storage and position after one move, in place |
| Day15.MoveOf | src/day15.rs:63-69 | a step exactly for the four arrows, and each is a unit step |
| Day15.Arrow | src/day15.rs:63-69 | the arrow of a unit step reads back as that step |
| Day15.Moves | src/day15.rs:62-70 | at most one unit step per character |
| Day15.MovesAppend | src/day15.rs:62-70 | the moves of a concatenation are the concatenated moves |
| Day15.MovesSkip | src/day15.rs:68 | characters other than arrows, such as line breaks, add no move |
| Day15.MovesOfArrows | src/day15.rs:62-70 | steps written as arrows read back as the same steps |
| Day15.GpsUpToWrite | src/day15.rs:17-20 | writing one cell changes the GPS sum by its contribution before and after |
| Day15.GpsPush | src/day15.rs:42-47 | a push changes the GPS sum as if only the first box moved to the cell past the run |
| Day15.BoxGpsLocs | src/day15.rs:15-21 | the storage after all the moves, and the GPS sum of the boxes on it |
| Day15.SumGps | src/day15.rs:17-20 | the sum of `x + 100 y` over the boxes, in row-major order |
| Day15.ParseMap | src/day15.rs:52-60 | the parsed grid with the first robot replaced by floor and its position; an error only for a jagged map or no robot |
| Day16.FindGridRepl | src/day16.rs:27-34 | the first cell holding `c`, overwritten with `repl`; an error naming the byte iff no cell holds `c`, and then nothing changes |
| Day16.ParseMap | src/day16.rs:20-25 | the grid with its first `S` and then its first `E` made open floor, and their positions; an error iff the map is jagged or lacks either |
| Day16.FirstIndexAfterWrite | src/day16.rs:22-23 | replacing the start does not move the first end |
| Day16.Node.WithCost | src/day16.rs:130-135 | the same place and direction, `c` dearer |
| Day16.Node.Ahead | src/day16.rs:109-114 | one cell on in the facing direction, for 1 |
| Day16.Node.Left | src/day16.rs:116-121 | a quarter turn anticlockwise on the spot, for 1000 |
| Day16.Node.Right | src/day16.rs:123-128 | a quarter turn clockwise on the spot, for 1000 |
| Day16.LeftOfRight | src/day16.rs:116-128 | a right turn and then a left one face the same way |
| Day16.TurnsCancel | src/day16.rs:116-128 | turning back and forth, or four times the same way, changes only the cost |
| Day16.CmpIsTotalOrder | src/day16.rs:88-96 | the node order is a total order, equal only on equal nodes, and ranks by cost first |
| Day16.DirIndexInjective | src/day16.rs:72 | distinct directions have distinct slots |
| Day16.Lowered | src/day16.rs:71-74 | lowering a slot keeps the shape of the best-cost table |
| Day16.LoweredTotal | src/day16.rs:73-74 | lowering a best cost lowers the sum of the table |
| Day16.MinIndex | src/day16.rs:66-68 | the index of a queued node that no queued node comes before |
| Day16.SearchSpace.New | src/day16.rs:59-64 | an empty queue and the best cost `usize::MAX` everywhere |
| Day16.SearchSpace.Pop | src/day16.rs:66-68 | `None` iff the queue is empty; otherwise a least node, taken out once |
| Day16.SearchSpace.Push | src/day16.rs:70-78 | a node inside the grid that beats its cell's best cost for its direction lowers that cost and is queued; else nothing changes |
| Day16.MoveShift | src/day16.rs:43-48 | a move never gets cheaper, and the same move from a cheaper state costs no more |
| Day16.Frontier | src/day16.rs:39-49 | every run below `usize::MAX` has a queued node no dearer than it, or its last state expanded at no higher cost |
| Day16.PopSound | src/day16.rs:39-42 | a popped node that is not at the end has a run that reaches it |
| Day16.PushMove | src/day16.rs:43-48 | pushing a move keeps the search invariant and never raises a best cost |
| Day16.Expand | src/day16.rs:43-48 | pushing the step ahead onto open floor and both turns keeps the invariant and closes the node |
| Day16.ClosedAdd | src/day16.rs:43-48 | a node whose three moves are recorded is closed |
| Day16.ShortestPathCost | src/day16.rs:36-51 | `Some(c)`: some run from the start facing east reaches the end at cost `c`, and none below `usize::MAX` is cheaper; `None`: no run below `usize::MAX` reaches the end |
| Day17.NewA | src/day17.rs:123-128 | register A set, the pointer and B and C zero, all registers `u64` |
| Day17.Decode | src/day17.rs:130-149 | no instruction iff fewer than two numbers are left or the opcode is above 7; otherwise that opcode with the next number as operand |
| Day17.Combo | src/day17.rs:192-203 | 0 to 3 stand for themselves, 4 to 6 for A, B and C, the rest for 0; a `u64` |
| Day17.Step | src/day17.rs:151-190 | the pointer jumps only for `jnz` with A non-zero, only `out` outputs, the low octal digit of its operand, and each register changes only under its own instructions |
| Day17.StepRegisters | src/day17.rs:151-190 | the registers stay `u64` values |
| Day17.RunFuel | src/day17.rs:17 | more fuel does not change a run that ended |
| Day17.Run | src/day17.rs:176-179 | a run that halts has output only octal digits |
| Day17.Cpu.constructor | src/day17.rs:14 | a machine holding the given state |
| Day17.Cpu.Exec | src/day17.rs:151-190 | one instruction in place, as `Step` gives it |
| Day17.Cpu.Cycle | src/day17.rs:17-24 | one more instruction of the run seen as a whole; failure only when the run does not halt |
| Day17.RunStep | src/day17.rs:17-24 | one more instruction of a run, seen from the run as a whole |
| Day17.RunStops | src/day17.rs:17-24 | a run stops without halting when the fuel is spent or the next instruction panics |
| Day17.RunEnds | src/day17.rs:17 | a run halts with its outputs when no instruction is left |
| Day17.RenderSnoc | src/day17.rs:19-22 | a digit is added after a comma unless it is the first |
| Day17.RenderEmpty | src/day17.rs:19 | the text is empty iff there were no outputs |
| Day17.Run1 | src/day17.rs:13-26 | the outputs of the run, comma-separated, iff the run halts |
| Day17.Say | src/day17.rs:18-23 | printing a digit output extends the text by it |
| Day17.PackSnoc | src/day17.rs:105-106 | each output is or-ed in three bits on from the previous one |
| Day17.OctalBound | src/day17.rs:99-110 | `k` octal digits make a number of at most `3k` bits |
| Day17.OctalSnoc | src/day17.rs:99-110 | one more digit is its value times the next power of eight |
| Day17.OctalDigit | src/day17.rs:99-110 | each octal digit is read back from its three-bit group |
| Day17.OctalInjective | src/day17.rs:73 | equally many octal digits with the same number are the same digits |
| Day17.DigitFits | src/day17.rs:105 | a digit shifted to bit `k` takes bits `k` to `k + 2` |
| Day17.PackIsOctal | src/day17.rs:99-110 | up to 21 outputs pack into their octal number |
| Day17.PackDigit | src/day17.rs:99-110 | output `i` sits in bits `3i` to `3i + 2` of the packed outputs |
| Day17.ProgBitsIsOctal | src/day17.rs:44 | up to 21 program digits fold into their octal number |
| Day17.Times8Fits | src/day17.rs:44 | a shift by three loses nothing while it fits in 64 bits |
| Day17.LowBitsBelow | src/day17.rs:45 | masking a number below the mask's power of two keeps it |
| Day17.MatchesIsEqual | src/day17.rs:73 | for a program of at most 21 digits, the test passes iff the outputs are the program |
| Day17.AcceptedIsQuine | src/day17.rs:72-75 | for a program of at most 21 digits, A is accepted iff the program outputs itself |
| Day17.MaskedOctal | src/day17.rs:73 | masking up to 21 packed digits keeps them all |
| Day17.Oct | src/day17.rs:99-110 | the packed outputs and their number, or none when the run does not halt or outputs a 23rd digit |
| Day17.Absorb | src/day17.rs:104-107 | one more output packed and counted |
| Day17.OctOfStops | src/day17.rs:103 | a run that does not halt gives no result |
| Day17.OctOfLong | src/day17.rs:105 | a run that outputs a 23rd digit gives no result |
| Day17.OctOfEnds | src/day17.rs:103-109 | a run that halts with at most 22 outputs gives them packed, and their number |
| Day17.Run2Impl | src/day17.rs:43-97 | `"failed"`, or the decimal form of a `u64` value of A that passes the test |
| Day17.ProgMask | src/day17.rs:45 | the low `3 * len` bits set |
| Day17.MaskTest | src/day17.rs:73 | the mask test reads the low bits of the packed outputs |
| Day17.Seeds | src/day17.rs:47-55 | every value of the low twelve bits, with bit 12 next and one digit to check |
| Day17.Children | src/day17.rs:78-90 | the two nodes with the next bit of A clear and set, and one bit more to check |
| Day17.ParseU64 | src/day17.rs:212-214 | `Ok` iff the text is the decimal form of a `u64` |
| Day17.ParseU8 | src/day17.rs:218 | `Ok` iff the text is the decimal form of a `u8` |
| Day17.ParseInput | src/day17.rs:206-222 | the registers from the first three fields and the program from the fourth; fewer than four fields is an error |
| Day17.ParseRegisters | src/day17.rs:212-214 | registers read come from three fields that are each a `u64`, and the instruction pointer starts at 0 |
| Day17.ParseProgram | src/day17.rs:216-219 | the fourth field's comma-separated pieces read as `u8`, the first bad one the error; a program read is non-empty and made of `u8` numbers |
| Day17.RenderChars | src/day17.rs:22 | printed outputs are digits and commas |
| Day17.FieldsField | src/day17.rs:207-210 | a line `head: value` gives the field `value` |
| Day17.LayoutFields | src/day17.rs:207-210 | the five lines of the usual layout give four fields |
| Day17.LayoutLines | src/day17.rs:207 | the lines of the usual layout read back as lines |
| Day17.ParseOfNatToString | src/day17.rs:212-218 | decimal forms of `u64` and `u8` values parse back |
| Day17.ProgramOfRender | src/day17.rs:216-219 | the numbers of a written-out program read back as the program |
| Day17.ParseInputOfText | src/day17.rs:206-222 | the usual layout of registers and program parses back to them |
| Day17.SampleTurn | src/day17.rs:246 | one turn of the example loop halves A and outputs its low octal digit |
| Day17.SampleRun | src/day17.rs:246 | with fuel for every turn, the example program halts with the octal digits of A after the first halving |
| Day17.SampleOne | src/day17.rs:241-251 | with A = 729 the example program outputs 4,6,3,5,6,3,5,2,1,0 |
| BreadthFirst.Reached | src/day18.rs:84-97 | the number of cells holding a distance, at most the cell count |
| BreadthFirst.ReachedUpdate | src/day18.rs:85 | overwriting a cell changes the count by what left and what came |
| BreadthFirst.ReachedBelow | src/day18.rs:90 | a cell without a distance leaves the count below the cell count |
| BreadthFirst.FloodedUnique | src/day18.rs:77-98 | the free cells determine a finished flood completely |
| BreadthFirst.ExpandMark | src/day18.rs:88-94 | a free neighbour without a distance gets one more than the popped cell and is queued |
| BreadthFirst.ExpandSkip | src/day18.rs:88-94 | a neighbour that is not free, or already has a distance, changes nothing |
| BreadthFirst.Remark | src/day18.rs:91 | marking one more cell keeps the marked cells exactly those added |
| BreadthFirst.SameIndex | src/day18.rs:89 | two grids of one shape number their cells alike |
| BreadthFirst.PopView | src/day18.rs:84-85 | writing the popped cell's distance changes no known distance and fixes the start at 0 |
| BreadthFirst.RoundOf | src/day18.rs:84-97 | a pop and its four neighbours make one round, which reaches more cells or shortens the queue |
| BreadthFirst.BfsStart | src/day18.rs:83 | the search starts with only its start known, at 0, and queued |
| BreadthFirst.StepExact | src/day18.rs:84-97 | a round keeps every known distance the shortest |
| BreadthFirst.StepLayered | src/day18.rs:84-97 | a round keeps the queue in layers of distance |
| BreadthFirst.StepClosure | src/day18.rs:86-96 | a round keeps the free neighbours of popped cells known |
| BreadthFirst.StepComplete | src/day18.rs:84-97 | a round keeps every cell within the front's distance known |
| BreadthFirst.BfsRound | src/day18.rs:84-97 | the search invariant survives a round |
| BreadthFirst.BfsEnd | src/day18.rs:84-97 | with the queue empty, every cell reached holds its shortest distance and every other cell holds `u16::MAX` |
| Day18.CoordsOf | src/day18.rs:68-73 | at most one point per line; lines that are not points are skipped |
| Day18.RenderAll | src/day18.rs:106-132 | one line per point |
| Day18.CoordOfRender | src/day18.rs:70-71 | the line `x,y` of an `i32` point reads back as the point |
| Day18.CoordsOfRender | src/day18.rs:68-73 | points written one per line read back as the same points |
| Day18.ReadBack | src/day18.rs:68-73 | the lines of points read back as the points |
| Day18.OpenHas | src/day18.rs:88 | a cell is free iff it is inside and holds `.` |
| Day18.Expand | src/day18.rs:86-96 | each free neighbour without a distance gets `n + 1` and is queued; nothing else changes |
| Day18.Flood | src/day18.rs:77-98 | every cell a walk through free cells reaches from the goal corner holds its shortest distance, every other `u16::MAX` |
| Day18.FreeAfterHas | src/day18.rs:14-23 | a cell is free iff inside the square and no fallen byte lies on it |
| Day18.CutsAt | src/day18.rs:40-50 | test `j` asks whether the first `j + 1` bytes cut the corner off |
| Day18.FirstFlaggedSome | src/day18.rs:48-50 | a found byte is the first whose test passed |
| Day18.FirstFlaggedNone | src/day18.rs:48-50 | nothing found means no test passed |
| Day18.CutPersists | src/day18.rs:40-50 | once the corner is cut off, more bytes keep it so |
| Day18.FirstCutSome | src/day18.rs:30-66 | a found byte cuts the corner off and none before it does |
| Day18.FirstCutNone | src/day18.rs:30-66 | nothing found: no prefix of the bytes cuts the corner off |
| Day18.FloodedAt | src/day18.rs:27 | a flooded cell holds `u16::MAX` iff the goal does not reach it, and otherwise its distance |
| Day18.FloodedShrink | src/day18.rs:41-47 | cells the goal cannot reach make no difference to the flood |
| Day18.ReachableMono | src/day18.rs:40-47 | fewer free cells reach less |
| Day18.Fallen | src/day18.rs:16-23 | an `n` by `n` grid with `#` exactly on the fallen bytes inside it, `.` elsewhere |
| Day18.OpenAfterDrop | src/day18.rs:16-23 | the free cells after the drop are the square minus the fallen bytes |
| Day18.Star1 | src/day18.rs:14-28 | `u16::MAX` iff no walk through the cells free after the first `len` bytes joins the corners, and otherwise the shortest walk's length |
| Day18.Shortest | src/day18.rs:25-27 | the distance of `(0, 0)` from the goal corner through the free cells, `u16::MAX` iff unreachable |
| Day18.OpenBlock | src/day18.rs:43-45 | writing `#` takes that cell out of the free ones |
| Day18.FreeAfterNext | src/day18.rs:40-45 | the next byte takes its cell out of the free ones |
| Day18.ShadowBlocked | src/day18.rs:42-46 | blocking a reached cell keeps the flood in step after it is redone |
| Day18.ShadowSkipped | src/day18.rs:42 | a byte on an unreached cell may be left free |
| Day18.Fall | src/day18.rs:41-47 | a byte on a reached cell is blocked and the flood redone; otherwise nothing changes |
| Day18.Check | src/day18.rs:48-50 | keeps the first byte after which `(0, 0)` is unreached |
| Day18.Star2 | src/day18.rs:30-66 | the first byte whose fall cuts `(0, 0)` off from the far corner, or none |
| Day19.LenToPatsOf | src/day19.rs:22-31 | every pattern is filed under its own length |
| Day19.LenToPatsMeaning | src/day19.rs:22-31 | a word is found by its length iff it is one of the listed patterns |
| Day19.ParsePatterns | src/day19.rs:15-31 | the patterns found are exactly the pieces of the first line between `", "` |
| Day19.BoundedCard | src/day19.rs:34 | at most `n` positions below `n` can be reached, which bounds the search |
| Day19.BuiltStep | src/day19.rs:40-41 | a built prefix followed by a pattern is built |
| Day19.ClosedReachesBuilt | src/day19.rs:36-49 | with every reached position expanded, every built prefix was reached |
| Day19.ClosedNotPossible | src/day19.rs:50 | when the stack runs empty, the design is not a sequence of patterns |
| Day19.PushInv | src/day19.rs:44-45 | stacking a newly reached built position keeps the invariant |
| Day19.PopInv | src/day19.rs:36 | an expanded position may leave the stack |
| Day19.ReachEnd | src/day19.rs:42-43 | a pattern that ends the design at a reached position makes it possible |
| Day19.Expand | src/day19.rs:37-48 | `found` only for a possible design; otherwise every pattern at `p` leads to a reached position, now stacked |
| Day19.DesignPossible | src/day19.rs:33-51 | true iff the design is a sequence of patterns; the empty design only when the empty pattern is listed |
| Day19.CountPossible | src/day19.rs:19 | at most one count per design |
| Day19.Star1 | src/day19.rs:12-20 | an error iff the input has fewer than two lines; otherwise the number of possible designs after the second line |
| Day20.ParseTrack | src/day20.rs:23-36 | the grid, with the first `S` as start and the first `E` as end; an error iff the grid is jagged or a letter is missing |
| Day20.FreeHas | src/day20.rs:51 | a cell is free iff it is inside and not a wall |
| Day20.ParentedMarks | src/day20.rs:50-54 | marking neighbours with one more than their parent keeps every mark parented |
| Day20.PopSame | src/day20.rs:43-47 | the popped cell already holds its distance |
| Day20.FillStops | src/day20.rs:56-58 | when the fill stops at the end, its distances are exact and the free end has one |
| Day20.FilledOf | src/day20.rs:47-60 | exact, parented distances with the start at 0 are what the fill leaves |
| Day20.Visit | src/day20.rs:48-59 | each free neighbour without a distance gets `pd + 1` and is queued, stopping after the end |
| Day20.Fill | src/day20.rs:42-60 | every distance the fill writes is exact, and a free end has one iff the start reaches it |
| Day20.Lower | src/day20.rs:69-76 | the neighbours inside with a distance below `pd`, in step order |
| Day20.LowerHas | src/day20.rs:69-76 | every neighbour with a smaller distance is among them |
| Day20.Trace | src/day20.rs:63-77 | every cell the backtracking pushes is inside the grid |
| Day20.FilledDescending | src/day20.rs:64-77 | the cells the backtracking meets have lower neighbours, so it ends |
| Day20.LowerNotEmpty | src/day20.rs:69-76 | a reached cell away from the start has a lower neighbour |
| Day20.TraceStep | src/day20.rs:64-77 | one round of the backtracking pushes the lower neighbours and goes on from the last, which is closer |
| Day20.Reverse | src/day20.rs:78 | the reversed sequence |
| Day20.PushLower | src/day20.rs:69-76 | the trail gets every lower neighbour, in step order |
| Day20.Backtrack | src/day20.rs:63-79 | the reversed trace from the end |
| Day20.DescentJoin | src/day20.rs:64-77 | two descents, the second starting where the first ends, make one |
| Day20.LowerLayer | src/day20.rs:72 | every lower neighbour of a reached cell is exactly one closer to the start |
| Day20.CloserByOne | src/day20.rs:72 | a neighbour closer to the start than a reached cell is exactly one step closer |
| Day20.HeadDescent | src/day20.rs:69-76 | a reached cell followed by its lower neighbours descends |
| Day20.TraceLayers | src/day20.rs:64-77 | from a reached cell the backtracking descends step by step and ends at the start |
| Day20.DropRise | src/day20.rs:72 | a drop between reached cells, read backwards, is a rise |
| Day20.KnownDist | src/day20.rs:47-60 | a written distance is the distance of a reachable cell |
| Day20.TraceClimbs | src/day20.rs:78 | reversed, the backtracking from a reached cell climbs from the start |
| Day20.FilledReachable | src/day20.rs:47-60 | every written distance belongs to a reachable cell |
| Day20.TracePath | src/day20.rs:62-79 | the end alone when the start does not reach it, otherwise a climb from the start to the end |
| Day20.StartOnly | src/day20.rs:42-43 | a fresh distance grid with 0 at the start holds `u16::MAX` elsewhere |
| Day20.FindPath | src/day20.rs:41-80 | a path ending at the end: the end alone when unreachable, otherwise a climb from the start through free cells |
| Day20.LinksWalk | src/day20.rs:69-76 | cells linked one after another make a walk |
| Day20.DistStart | src/day20.rs:43 | the start is at distance 0 from itself |
| Day20.ClimbUp | src/day20.rs:62-79 | along a climb a cell's distance is at most its position |
| Day20.ClimbRest | src/day20.rs:62-79 | along a climb the last distance exceeds a cell's by at most the cells after it |
| Day20.TightClimb | src/day20.rs:62-79 | a climb as long as its last cell's distance is a shortest walk from the start |
| Day20.U16 | src/day20.rs:114 | `i as u16` is below 65536 |
| Day20.StampOff | src/day20.rs:110-116 | a cell off the path keeps `u16::MAX` |
| Day20.StampOn | src/day20.rs:110-116 | on a path of at most 65536 cells, a cell on it holds its last index |
| Day20.StampPath | src/day20.rs:110-116 | a grid holding each path cell's last index, `u16::MAX` off the path |
| Day20.StampNext | src/day20.rs:113-115 | writing index `i` extends the index grid by one path cell |
| Day20.CheatsAt | src/day20.rs:134-144 | the cheats starting at one path cell, in the four directions |
| Day20.SkipCell | src/day20.rs:131-133 | a cell off the path starts no cheat |
| Day20.FindCheats | src/day20.rs:109-147 | exactly the cells off the path one step from it whose next cell in that direction is an earlier path cell, mapped to the saving |
| Day20.WalkChain | src/day20.rs:69-76 | a walk is a chain of adjacent cells |
| Day20.TwoStepsApart | src/day20.rs:135-136 | a cell two steps away in one direction is not adjacent |
| Day20.ChainNoShortJump | src/day20.rs:139-140 | along a chain each cheat saves at least nothing, so `pn - rn - 2` does not underflow |
| Day20.ChainJoin | src/day20.rs:134-144 | two chains joined through a cell adjacent to both ends make a chain |
| Day20.CheatRoute | src/day20.rs:134-144 | a cheat makes a race from start to end through the wall cell, shorter by the saving |
| Day20.Manhattan | src/day20.rs:104-107 | zero iff the cells are the same |
| Day20.ManhattanMetric | src/day20.rs:104-107 | symmetric, with the triangle inequality, and 1 between adjacent cells |
| Day20.ChainSpan | src/day20.rs:97-98 | along a chain, cells `k` apart are at most `k` unit steps apart |
| Day20.ChainNoUnderflow | src/day20.rs:97-99 | along a chain `d_normal - d_cheat` never underflows |
| Day20.RowSplit | src/day20.rs:91-94 | a row is its first candidate, if counted, and the rest of the row |
| Day20.CountRowCard | src/day20.rs:91-100 | a row counts its pairs |
| Day20.FromSplit | src/day20.rs:88-95 | the pairs from row `from` on are that row's and the later rows', which share none |
| Day20.CountFromCard | src/day20.rs:88-101 | the rows from `from` on count their pairs |
| Day20.CountNew | src/day20.rs:82-102 | `find_cheats_new` counts the pairs at least `min_save` apart that a cheat of at most `duration` joins and whose saving passes `check` |
| Day21.MovesUnique | src/day21.rs:108-141 | a direction key determines the position it reaches |
| Day21.Cell | src/day21.rs:108 | a position is rebuilt from its column and row |
| Day21.Push | src/day21.rs:105-149 | `Ack` exactly for 'A', with the key under the robot, which stays; a valid move lands on a key; an invalid one leaves the robot in place |
| Day21.PushMoves | src/day21.rs:109-148 | a direction key moves the robot iff the square it points at holds a key, and then moves it there |
| Day21.Target | src/day21.rs:108-141 | the position a direction key aims at, in `u16` |
| Day21.TargetMoves | src/day21.rs:108-141 | the target is where the key points, and there is none exactly when it points off the left, right or top edge |
| Day21.Aim | src/day21.rs:141 | column `x` of row `y` is `x + 3y`, where the key takes the robot |
| Day21.AtCell | src/day21.rs:108 | a position's column and row are read back from it |
| Day21.Chain | src/day21.rs:91-103 | one position per robot after the chained press |
| Day21.ChainShape | src/day21.rs:91-103 | an acknowledged chain moves no robot and types the key under the last; otherwise at most one robot moved, and only onto a key |
| Day21.ChainPasses | src/day21.rs:94-96 | a robot that acknowledges hands its key to the rest of the chain |
| Day21.ChainStops | src/day21.rs:97-99 | a robot that does not acknowledge ends the chain with its result |
| Day21.PushChain | src/day21.rs:91-103 | the result and robot positions of the chained press, updated in place |
| Day21.New | src/day21.rs:43-54 | nothing typed and every robot on the first 'A' of its keypad |
| Day21.Str | src/day21.rs:56-58 | the first `ikey` keys of the buffer |
| Day21.ConsistentSafe | src/day21.rs:60-82 | in a consistent state every key runs down the chain without a panic |
| Day21.NextShape | src/day21.rs:60-82 | `None` iff the chain refuses; otherwise the robots are where the chain left them, an acknowledgement types the door robot's key, and consistency is kept |
| Day21.NextTypes | src/day21.rs:60-82 | a key is typed iff the human presses 'A' while the first two robots stand on 'A' |
| Day21.NextSteers | src/day21.rs:60-82 | any key but 'A' moves or is refused by the first robot only |
| Day21.FirstPressTypesA | src/day21.rs:155-160 | from the start, pressing 'A' types "A" |
| Day21.UpFromTheTopIsRefused | src/day21.rs:124-130 | from the start, '<' then 'A' sends the second robot off the top of its keypad and is refused |
| Day21.Step | src/day21.rs:60-82 | one step of the state, as `Next` gives it |
| Day21.Run | src/day21.rs:155-160 | pressing keys in turn keeps the state consistent, and typed keys stay typed |
| Day22.StepBits | src/day22.rs:41-49 | the mixed and pruned secret fits in 24 bits |
| Day22.StepBitsLow | src/day22.rs:41-49 | only the low 24 bits of a secret decide the next one |
| Day22.StepSecret | src/day22.rs:41-49 | `step_secret` of a `u32` is below `2^24` |
| Day22.StepSecretExample | src/day22.rs:107 | `step_secret(123)` is 15887950 |
| Day22.StepSecretExamples | src/day22.rs:107 | the next three secrets from 15887950 are 16495136, 527345 and 704524 |
| Day22.Nth | src/day22.rs:67-69 | every secret is a `u32`, and below `2^24` after the first step |
| Day22.SecretAfter | src/day22.rs:21-25 | the loop gives the secret after `n` steps |
| Day22.SumAfterBound | src/day22.rs:17-28 | each buyer adds less than `2^24` to the sum |
| Day22.Star1 | src/day22.rs:17-28 | the sum over buyers of the 2000th secret |
| Day22.Prices | src/day22.rs:72-73 | the price at each step is the last decimal digit of that step's secret |
| Day22.Push | src/day22.rs:93-98 | the window moves on by one and `d` takes the newest place |
| Day22.Scan | src/day22.rs:79-82 | the window after step `n` has four changes |
| Day22.ScanIsWindow | src/day22.rs:74-82 | the two scans hold the last four price changes at every step |
| Day22.NthExample | src/day22.rs:107 | the first five secrets from 123 |
| Day22.PriceChangesExample | src/day22.rs:109-112 | from 123, the item after skipping four is the window -3, 6, -1, -1 with price 4 |
| Day22.PriceChanges | src/day22.rs:71-83 | each item is its step's window and price |
| Day22.FirstOccurrenceKeys | src/day22.rs:55-58 | the windows kept are the windows of the items |
| Day22.FirstOccurrenceAt | src/day22.rs:56 | a window first seen at item `i` keeps the price of item `i` |
| Day22.FirstPricesHas | src/day22.rs:51-59 | a window seen after the first four steps is kept |
| Day22.FirstPricesOnly | src/day22.rs:51-59 | every window kept was seen after the first four steps |
| Day22.FirstPricesAt | src/day22.rs:51-59 | a window first seen at step `i` keeps the price of step `i` |
| Day22.FirstItems | src/day22.rs:54 | a window first seen at step `i` is the window of no earlier item after the skip |
| Day22.UnseenNotKept | src/day22.rs:55-58 | a window no item holds is not kept |
| Day22.FirstPricesOf | src/day22.rs:51-59 | a window whose first item is the one of step `i` is kept with the price of step `i` |
| Day22.FirstPricesKeys | src/day22.rs:51-59 | a window is kept iff it is seen after the first four steps |
| Day22.AddChanges | src/day22.rs:61-65 | every entry of `add` is added to that of `m`, starting at 0, and no other entry changes |
| Day22.MaxValue | src/day22.rs:35 | the largest value, 0 for an empty map |
| Day22.Star2 | src/day22.rs:30-36 | the most bananas any window earns over all buyers, and it is earned by some window, or 0 |
| Day22.ParseInput | src/day22.rs:10-15 | `Ok` iff every line is a `u32`, and then those numbers in order |
| Day22.ParseInputRoundTrip | src/day22.rs:10-15 | secrets written one per line parse back |
| Day23.BelowTotal | src/day23.rs:181-182 | the derived order on computers is strict and total |
| Day23.ParseComp | src/day23.rs:185-190 | `Some` iff exactly two lowercase ASCII letters, and the name reads the text back |
| Day23.ParseName | src/day23.rs:185-194 | a computer parses back from its name |
| Day23.ParseLink | src/day23.rs:176-179 | `Some` iff two names on either side of a `-`, and the line is their names joined by `-` |
| Day23.ParseLinkOfNames | src/day23.rs:176-179 | a link written `ab-cd` parses back to its computers |
| Day23.LinksOf | src/day23.rs:113-116 | the link set of `c`, empty for an unknown computer |
| Day23.AddTo | src/day23.rs:100-107 | exactly one directed link more, with `l` a computer of the network |
| Day23.AddBothLinks | src/day23.rs:95-98 | both directed links are added and nothing else, keeping the network symmetric and full |
| Day23.BuildLinks | src/day23.rs:165-174 | the built network links exactly the pairs given, both ways |
| Day23.BuildShape | src/day23.rs:165-174 | the built network is symmetric and full |
| Day23.WalkEnds | src/day23.rs:149-162 | a walk from `c` ends inside every closed set of `c` |
| Day23.WalkOn | src/day23.rs:149-162 | a walk goes on by one more link |
| Day23.LeastClosedReached | src/day23.rs:149-162 | the least closed set of `c` is what `c` reaches |
| Day23.ReachedIsLeast | src/day23.rs:149-162 | what `c` reaches is the least closed set |
| Day23.ReachesSelf | src/day23.rs:149-162 | in a symmetric, full network a computer with links reaches itself |
| Day23.SplitReached | src/day23.rs:138-147 | what `c` reaches holds all its members' links, and the rest is symmetric and full again |
| Day23.MoveOne | src/day23.rs:140-145 | moving one more computer out of the rest into the part |
| Day23.Follow | src/day23.rs:155-160 | each new computer joins the set and the work list |
| Day23.FollowInside | src/day23.rs:152-160 | following the links of a reached computer stays inside every closed set |
| Day23.Explore | src/day23.rs:149-162 | exactly the computers reached from `c` |
| Day23.Move | src/day23.rs:140-146 | the rest without the part's computers, and the part with exactly their links |
| Day23.PartShape | src/day23.rs:130-136 | the part reached from `c` is non-empty, keeps its links and lies outside what was taken |
| Day23.PartWhole | src/day23.rs:130-136 | the part holds every computer its members link to |
| Day23.PartRest | src/day23.rs:130-136 | what is left is the network without everything taken, symmetric and full |
| Day23.PartitionSnoc | src/day23.rs:130-136 | a further whole part outside what was taken extends the partition |
| Day23.FewerKeys | src/day23.rs:131 | taking out a part leaves fewer computers |
| Day23.NextPart | src/day23.rs:130-136 | one round extends the partition and leaves a smaller, symmetric and full rest |
| Day23.AllTaken | src/day23.rs:131 | nothing is left only when every computer was taken |
| Day23.PartitionFacts | src/day23.rs:130-136 | the parts are non-empty, disjoint, cover the network and each holds all its members' links |
| Day23.Network.constructor | src/day23.rs:91-93 | an empty network |
| Day23.Network.AddLinkImpl | src/day23.rs:100-107 | the links with one directed link more |
| Day23.Network.AddLink | src/day23.rs:95-98 | the links with the link added both ways |
| Day23.Network.GetLinks | src/day23.rs:113-116 | exactly the computers `c` links to, empty for an unknown one |
| Day23.Network.SubnetComps | src/day23.rs:149-162 | exactly the computers reached from `c` |
| Day23.Network.ExtractSubnet | src/day23.rs:138-147 | the part reached from `c` moves, with its links, into a fresh network |
| Day23.Network.TakePart | src/day23.rs:131-134 | one round extends the partition and shrinks the network |
| Day23.Network.IntoSubnets | src/day23.rs:130-136 | empties the network into fresh networks that partition it |
| Day23.ParseLinks | src/day23.rs:165-174 | `Ok` iff every line is a link, with those links; otherwise the error of the first bad line |
| Day23.ParseNetwork | src/day23.rs:165-174 | a fresh network with every link added both ways, or the first bad line's error |
| Day23.ParsedNetwork | src/day23.rs:165-174 | the parsed network is symmetric, full, and links exactly the pairs of its lines |
| Day23.NamesDecide | src/day23.rs:176-179 | two written links are the same text iff they join the same computers in the same order |
| Day23.Sort3 | src/day23.rs:20-38 | the three computers in ascending order |
| Day23.TripletSound | src/day23.rs:20-38 | every triple found is sorted, pairwise linked, with a computer the filter accepts |
| Day23.TripletComplete | src/day23.rs:20-38 | in a symmetric network every accepted triangle is found |
| Day23.TripletsExactly | src/day23.rs:20-38 | without self-links, the triples are exactly the accepted triangles |
| Day23.Star1CountsTriangles | src/day23.rs:12-18 | part one counts the triangles with a computer starting with `t` |
| Day23.HasLeast | src/day23.rs:78 | a non-empty set has a least computer |
| Day23.First | src/day23.rs:78 | the least computer of a set |
| Day23.Ascending | src/day23.rs:66-72 | the computers of a set in strictly ascending order |
| Day23.TryExpand | src/day23.rs:77-85 | exactly the computers outside `s` that every computer of `s` links to |
| Day23.ExpandClique | src/day23.rs:77-85 | a clique grown by one of them is a clique one larger |
| Day23.SeedGood | src/day23.rs:41-44 | every triple's set is one part two can work on |
| Day23.SeedOfTriangle | src/day23.rs:41-44 | every clique of three is a triple's set |
| Day23.CliqueSeen | src/day23.rs:46-55 | once every set is expanded, every clique of at least four was seen |
| Day23.GrowGood | src/day23.rs:48-53 | growing a good set by an expansion gives a grown set |
| Day23.Seeds | src/day23.rs:41-44 | each triple's set, in some order |
| Day23.Expand | src/day23.rs:48-54 | each expansion not seen before is marked and pushed, and the set is expanded |
| Day23.Longest | src/day23.rs:56-65 | a largest set seen, or the empty set |
| Day23.Names | src/day23.rs:66-72 | the names in order |
| Day23.PasswordIsJoin | src/day23.rs:66-72 | the answer is the names joined by commas, `3k - 1` characters long |
| Day23.ExpandedMore | src/day23.rs:46-55 | expanded sets stay expanded as more are seen |
| Day23.Search | src/day23.rs:46-55 | the seen sets are grown cliques, and every seed and seen set is expanded |
| Day23.Star2 | src/day23.rs:40-73 | the names of a largest clique of at least four, in ascending order, or the empty answer |
| Day24.WireParse | src/day24.rs:147-157 | `Some` iff three lowercase ASCII letters or digits, with that name |
| Day24.WireRoundTrip | src/day24.rs:147-161 | a wire's name parses back to the same wire |
| Day24.OpParse | src/day24.rs:93-110 | exactly the three operator names, each to its operator |
| Day24.GateResultIsBitwise | src/day24.rs:133-140 | a gate computes its operation bitwise on one-bit values |
| Day24.InitLine | src/day24.rs:37-45 | `Ok` iff the line splits at `: ` into a wire name and a `u8`, true when non-zero |
| Day24.GateLine | src/day24.rs:50-68 | `Ok` iff the words are a wire, an operator, a wire, `->` and a wire, giving that gate for the output |
| Day24.GateLineRoundTrip | src/day24.rs:50-68 | a gate line written out parses back to the same gate |
| Day24.FirstBlank | src/day24.rs:33-36 | the first empty line, or the number of lines |
| Day24.LoadMeaning | src/day24.rs:33-69 | loading succeeds iff every line parses, and each wire gets the value of its last line |
| Day24.ParseLinesMeaning | src/day24.rs:29-72 | parsing succeeds iff the values before the blank line and the gates after it all parse, with their last entries |
| Day24.LoadStep | src/day24.rs:45 | one loop step inserts the line's entry |
| Day24.LoadUntilBlank | src/day24.rs:32-46 | the first loop loads the lines before the first blank one |
| Day24.LoadAll | src/day24.rs:48-69 | the second loop loads every remaining line |
| Day24.Parse | src/day24.rs:29-72 | `Problem::parse` is the parse of the lines |
| Day24.ParseProblem | src/day24.rs:29-72 | `Problem::parse` succeeds iff every line before the first empty one is an initial value and every line after it a gate |
| Day24.EvalMonotone | src/day24.rs:74-82 | more fuel does not change a finished evaluation |
| Day24.EvalConsistent | src/day24.rs:74-82 | a finished evaluation agrees with every assignment consistent with the gates |
| Day24.EvalTerminates | src/day24.rs:74-82 | on an acyclic circuit evaluation finishes once fuel exceeds the wire's rank |
| Day24.ZWire | src/day24.rs:15 | the wire `z<i>` with two digits always parses |
| Day24.Number | src/day24.rs:14-20 | bit `i` of the fold is set iff `z<i>` evaluates to true, below `2^n` |
| Day24.TestBitPow2 | src/day24.rs:17 | bit `i` of `1 << k` is set iff `i == k` |
| Day24.Star1 | src/day24.rs:13-21 | a `u64` whose bit `i` is set iff `z<i>` evaluates to true |
| Day24.Sample1Z | src/day24.rs:182-193 | on the first sample only `z02` is true and no `z` wire above it exists |
| Day24.Star1Is | src/day24.rs:13-21 | part one is the one number with those bits |
| Day24.Sample1Star1 | src/day24.rs:247-248 | part one gives 4 on the first sample |
| Day25.AllFit | src/day25.rs:46 | true iff every pair of heights over the common length adds up to at most 7 |
| Day25.Fits | src/day25.rs:45-47 | true iff no column of the pair is overfull |
| Day25.ScanOkSymmetric | src/day25.rs:46 | the `u8` sums stay in range in either order |
| Day25.FitsSymmetric | src/day25.rs:45-47 | a key fits a lock exactly when the lock fits the key |
| Day25.Rows | src/day25.rs:54 | the grid's rows, starting with a non-empty one |
| Day25.ColumnCountOfRows | src/day25.rs:63-65 | counting `#` in a grid column is counting it in the rows |
| Day25.Pins | src/day25.rs:61-67 | one pin per column, the number of `#` cells cut to a `u8` |
| Day25.FromStr | src/day25.rs:53-71 | `Ok` iff the grid parses with exactly five columns, with the subject of its corner and the pins of its columns; another number of columns is the `try_into` error `could not convert slice to array` |
| Day25.ParseSchems | src/day25.rs:22-28 | one schematic per trimmed block between blank lines, or an error when a block fails |
| Day25.ParseBlocks | src/day25.rs:25-27 | `Ok` iff every block parses, each to its schematic in order |
| Day25.ParsedOneMore | src/day25.rs:26-27 | one more parsed block extends the collected prefix |
| Day25.RowCount | src/day25.rs:14-17 | the inner count is the number of locks the key fits |
| Day25.Star1CountsPairs | src/day25.rs:9-20 | the sum counts exactly the fitting (key, lock) pairs |
| Day25.FitPairsSplit | src/day25.rs:9-20 | the pairs split by the key's position |
| Day25.ColumnStep | src/day25.rs:62-65 | one more row adds itself to a column's `#` cells when its cell there is `#` |
| Day25.RowStep | src/day25.rs:15-17 | one more lock joins a key's fitting pairs when the two fit |
| Day25.RowOfLock | src/day25.rs:12 | a lock starts no fitting pair |
| Day25.FitPairsCount | src/day25.rs:9-20 | the pairs of the first `n` keys number those of the first `n - 1` plus the locks key `n - 1` fits |
| Day25.Star1 | src/day25.rs:9-20 | part one is the number of fitting (key, lock) pairs |
| Extrapolate.Deltas | src/extrapolate.rs:15 | one difference fewer than values |
| Extrapolate.Diff | src/extrapolate.rs:14-19 | the differences of order `j`, `j` fewer than the values |
| Extrapolate.Diagonal | src/extrapolate.rs:14-21 | one latest difference per order |
| Extrapolate.DeltasSnoc | src/extrapolate.rs:15 | a new value adds one difference at the end |
| Extrapolate.DiffSnoc | src/extrapolate.rs:14-19 | a new value adds one difference of every order |
| Extrapolate.DiagonalSnoc | src/extrapolate.rs:14-21 | the inner loop turns the old diagonal into the new one, each entry the new value minus the old entries above it |
| Extrapolate.BinomOne | src/extrapolate.rs:42 | the first multiplier after 1 is `n` |
| Extrapolate.Absorb | src/extrapolate.rs:42-45 | the absorption identity behind the multiplier recurrence |
| Extrapolate.NewtonSumZero | src/extrapolate.rs:36-38 | trailing zero differences add nothing to the sum |
| Extrapolate.MultiplierStep | src/extrapolate.rs:43-46 | each scan step divides exactly and gives the next binomial coefficient |
| Extrapolate.ScanSumIsNewton | src/extrapolate.rs:43-48 | the scanned sum is Newton's backward-difference sum over the binomial coefficients |
| Extrapolate.TrimZeros | src/extrapolate.rs:36-39 | the prefix without trailing zeros; everything cut off is zero |
| Extrapolate.ExactStep | src/extrapolate.rs:44 | when the product is a multiple of the divisor, the division is exact |
| Extrapolate.FromDiffv | src/extrapolate.rs:33-49 | Newton's backward-difference sum `Σ v[i]·C(m+i-1, i)` over the diagonal, from the scan with the trailing zeros dropped |
| Extrapolate.Extended | src/extrapolate.rs:14-19 | the diagonal after one more value when the top difference stays put, one entry per order |
| Extrapolate.ExtendedUnique | src/extrapolate.rs:14-19 | a diagonal that keeps its top entry and where each entry is its old self plus the new entry above is the extended one |
| Extrapolate.DiagonalHead | src/extrapolate.rs:14-21 | the first entry of the diagonal is the latest value |
| Extrapolate.DiagonalStep | src/extrapolate.rs:14-21 | the new diagonal starts with the new value, and each next entry is the one before minus the old entry |
| Extrapolate.DiagonalExtends | src/extrapolate.rs:14-21 | a value that keeps the difference of order `k` at zero extends the diagonal up to order `k` by one step |
| Extrapolate.TableExtends | src/extrapolate.rs:14-21 | values that keep the difference of order `k` at zero extend the diagonal once per value |
| Extrapolate.ExtendedTimesTail | src/extrapolate.rs:14-19 | past the first entry, extending is extending the orders above |
| Extrapolate.ExtendedTimesSingle | src/extrapolate.rs:14-19 | a diagonal of one entry never changes |
| Extrapolate.BinomDiag | src/extrapolate.rs:42 | `C(i, i) = 1` |
| Extrapolate.BinomAbove | src/extrapolate.rs:42 | `C(a, b) = 0` for `b > a` |
| Extrapolate.NewtonSumOne | src/extrapolate.rs:42-48 | one place beyond, every multiplier is 1 |
| Extrapolate.NewtonPascal | src/extrapolate.rs:42-48 | Pascal's rule on the sums: one place further is the sum one place less plus the sum from the next order |
| Extrapolate.ExtendedHead | src/extrapolate.rs:33-49 | the first entry after `m` extensions is Newton's sum of the diagonal |
| Extrapolate.FromClosedTable | src/extrapolate.rs:23-49 | when the top difference of a diagonal is zero and later values keep it zero, the `m`-th later value is Newton's sum of the diagonal: `from_diffv` yields the polynomial continuation |
| Extrapolate.Advance | src/extrapolate.rs:14-21 | the new diagonal, or failure iff a difference would be negative |
| Extrapolate.Nth | src/extrapolate.rs:4-31 | the value `nth` returns, as `NthFrom` defines it |
| Extrapolate.NthDirect | src/extrapolate.rs:10-12 | the `n`-th value itself when it is reached before the table closes |
| Extrapolate.NthRunsOut | src/extrapolate.rs:8 | `None` when the input ends before the table closes |
| Extrapolate.NthEnd | src/extrapolate.rs:23-30 | once the table closes past value `k`, `nth` is Newton's sum over the diagonal with `n - len + 1` places |
| Extrapolate.NthStep | src/extrapolate.rs:8-25 | one value more: a negative difference ends with `None`, a closed table ends with the extrapolation, otherwise `nth` goes on |
| Extrapolate.NthSkip | src/extrapolate.rs:7-26 | `nth` passes over the values that leave the table open |
| Extrapolate.NthContinuation | src/extrapolate.rs:4-31 | when the table closes at value `k` before `n`, `nth` returns the `n`-th value of every continuation that keeps the differences of order `k` zero |
| Extrapolate.BinomTwo | src/extrapolate.rs:42 | the multiplier `n(n+1)/2!` |
| Extrapolate.ExampleTable | src/extrapolate.rs:57 | the diagonals of the first sample; the fourth ends in zero |
| Extrapolate.ExampleClosed | src/extrapolate.rs:23-30 | past the fourth value the first sample extrapolates from its closed table |
| Extrapolate.ExampleNewton | src/extrapolate.rs:57-61 | Newton's sum over the closed sample table is the quadratic `1142 + 554 m + 91 m (m + 1)` |
| Extrapolate.ExampleQuadratic | src/extrapolate.rs:1-2 | the extrapolation is the quadratic through the first sample |
| Extrapolate.Examples | src/extrapolate.rs:59-61 | the three results of the first sample: 588, 84896 and 746036 |
| QuadMaps.MPos | src/quadmap.rs:61-66 | an offset inside the block's `SIZE * SIZE` cells |
| QuadMaps.MPosRebuild | src/quadmap.rs:61-66 | block and offset rebuild the point |
| QuadMaps.MPosInjective | src/quadmap.rs:61-66 | different points have a different block or offset |
| QuadMaps.LoHi | src/quadmap.rs:100-106 | the two values, in increasing order |
| QuadMaps.Bounds.constructor | src/quadmap.rs:76-81 | the empty box at the origin |
| QuadMaps.Bounds.EmptyHoldsNothing | src/quadmap.rs:83-85 | an empty box holds no point |
| QuadMaps.Bounds.EnclosesPoints | src/quadmap.rs:70-73 | one box encloses another exactly when every point of the second lies in the first |
| QuadMaps.Bounds.ExtendOne | src/quadmap.rs:87-97 | an empty box becomes the single cell; otherwise each corner moves just far enough to take in the point; it then holds the point and still encloses the box it was |
| QuadMaps.Write | src/quadmap.rs:33-41 | writing keeps every block whole |
| QuadMaps.CellOfWrite | src/quadmap.rs:33-41 | after a write the point reads the value and every other point reads what it read |
| QuadMaps.CellsOfWrite | src/quadmap.rs:33-41 | the same, at every point |
| QuadMaps.RowStep | src/quadmap.rs:49-51 | one more write extends the written run of a row |
| QuadMaps.ColumnStep | src/quadmap.rs:56-58 | one more write extends the written run of a column |
| QuadMaps.QuadMap.constructor | src/quadmap.rs:16-22 | no blocks and empty bounds; every point reads `zero` |
| QuadMaps.QuadMap.At | src/quadmap.rs:24-31 | `zero` for a point whose block was never allocated |
| QuadMaps.QuadMap.Put | src/quadmap.rs:33-41 | the blocks are the old ones with the point written, the bounds hold the point and still enclose the old box, and the point alone reads the new value |
| QuadMaps.QuadMap.HLine | src/quadmap.rs:47-52 | exactly the points of the row between the ends, in either order, read the item, every other point reads what it read; the bounds still enclose the old box and now enclose the row segment |
| QuadMaps.QuadMap.FillRow | src/quadmap.rs:49-51 | the loop of `hline` from `lo` to `hi`: the same, for ends in increasing order |
| QuadMaps.QuadMap.PutRowStep | src/quadmap.rs:50 | one write extends the painted run of the row by one point and the bounds with it |
| QuadMaps.QuadMap.VLine | src/quadmap.rs:54-59 | exactly the points of the column between the ends, in either order, read the item, every other point reads what it read; the bounds still enclose the old box and now enclose the column segment |
| QuadMaps.QuadMap.FillColumn | src/quadmap.rs:56-58 | the loop of `vline` from `lo` to `hi`: the same, for ends in increasing order |
| QuadMaps.QuadMap.PutColumnStep | src/quadmap.rs:57 | one write extends the painted run of the column by one point and the bounds with it |
| Util.SkipNth | src/util.rs:1-4 | every element but the one at `skip`, in order |
| Text.Lines | src/day14.rs:5 | `str::lines`: no line holds a line feed, and there are no lines exactly for the empty text |
| Text.LinesOfUnlines | src/day14.rs:5 | lines written one per line read back as the same lines |
| Text.SplitOnce | src/day07.rs:24-26 | `split_once` at a character: `None` iff the character is absent; otherwise the text before its first occurrence and the rest |
| Text.SplitOnceStr | src/day24.rs:37-39 | `split_once` at a string: `None` iff it never occurs; otherwise the split at its first occurrence |
| Text.Split | src/day17.rs:217 | `split` at a character: one piece or more, free of it, that join back to the text |
| Text.SplitOfJoin | src/day17.rs:217 | pieces free of the character split back apart |
| Text.SplitStr | src/day19.rs:23 | `split` at a string: one piece or more that join back to the text |
| Text.Words | src/day07.rs:30 | `split_ascii_whitespace`: every piece is a non-empty run without ASCII whitespace |
| Text.WordsOfJoin | src/day07.rs:30 | words written with single spaces between them split back into the same words |
| Text.StripPrefix | src/day14.rs:29 | `strip_prefix`: `Some` iff the text starts with the prefix, and then the rest after it |
| Text.TrimStartMatches | src/day13.rs:103 | `trim_start_matches` with a set of characters: the longest suffix whose first character is outside the set, everything cut off in the set |
| Text.TrimEndMatches | src/day13.rs:103 | `trim_end_matches`, symmetrically at the end |
| Text.TrimStartOf | src/day13.rs:103 | trimming a run of set characters before a character outside the set leaves the rest |
| Text.ParseInt | src/day07.rs:28 | `str::parse` into an integer type: a value read lies in the type's range, and the text is non-empty and not a lone sign |
| Text.ParseIntFails | src/day07.rs:28 | the parse fails exactly for the empty text, a lone sign, or a digit loop that stops early; the error is `Empty` exactly for the empty text, and an all-digit text overflows towards its sign |
| Text.ParseIntOfIntToString | src/day07.rs:28 | every value of the type parses back from its decimal form |
| Text.ParseIntDigits | src/day07.rs:28 | a sign and digits whose value fits parse to that signed value |
| Text.IntErrorOf | src/day24.rs:41-44 | the kind of `ParseIntError` for a text that is not a value: `Empty` exactly for the empty text |
| Text.IntErrorExamples | src/day24.rs:41-44 | the four kinds, `Empty`, `PosOverflow`, `InvalidDigit` and `NegOverflow`, each on an input that gives it |
| Text.StrParse | src/day13.rs:104 | `Ok` exactly when the parse succeeds, with its value; otherwise the error message of its kind |
| Text.StrParseOk | src/day13.rs:104 | a successful parse is `Ok` with its value |
| Text.NatToString | src/day07.rs:13 | the decimal form of a natural number is non-empty and all digits |
| Text.IntToStringChars | src/day07.rs:13 | a decimal form is digits with an optional leading `-`, ending in a digit |

## Left out

- Every day's `run` (and `main.rs`, `input.rs`): reading the puzzle input and formatting answers is I/O and is left out; each part is modelled as a function or method from the input text to its answer.
- Text is a `seq<char>` read as ASCII, one character per byte; UTF-8 decoding is not modelled.
- Rust debug-mode panics (integer overflow, `unwrap` of `None`, out-of-range indexing, shifts of the full width or more) become preconditions, so the model says nothing about inputs that would panic.
- Grids.Point.Sub and the `Point` arithmetic use unbounded integers; `i32` overflow of coordinates is not modelled (it cannot arise on grids whose size fits in `i32`).
- `Grid::show`, `show_by`, `values`, `rows`, `rows_mut`, `as_slice` and `dimensions` are printing helpers and accessors that no modelled code depends on.
- Grids.Parse: an input with no character besides line breaks divides by zero in `parse`, so it is excluded by a precondition.
- Grids.Grid.FillBlock: a rectangle whose clipped column range is inverted while its rows overlap the grid casts a negative width to `usize` and panics; it is excluded by a precondition.
- Day01.Star1: the sample answer of the tests (11) is not proved. `Distance` is defined on the sorted columns, and a sorted permutation is known only through `SortedUnique`; naming the sorted form of each literal column and proving it a permutation takes a multiset equation over six literals per column, which the solver does not settle by evaluation. The answer for every input is stated as `Distance` instead.
- `CellP` tuples of day 4 are read as `Point`.
- Day05.Star1: requires every rule's first page in `0..100` and second in `0..128`, and every page of every update in `0..100`, where indexing `pages_after` or shifting a `u128` would panic; this is stronger than the source needs for the pages after the first violation of a rejected update, which the scan never reaches. Part two is an empty answer in the source.
- Day06.Stars: the `unwrap` that panics when the guard turns to face off the grid depends on the whole walk, so it is not a precondition: the model returns `None` exactly when some walk `stars` takes would panic.
- Day06.Walk: a guard boxed in on all four sides turns for ever in the source; a precondition that the start (and every start with an obstacle) has a free side excludes that, and every cell stepped onto then also has one.
- Day07.IsAddMul and Day07.IsAddMulConcat: the folds compute on unbounded integers; an `i64` overflow of a partial sum or product, a panic in the source, is not modelled. An empty operand list (which underflows `len() - 1`), more than 32 operands for part one (an `i32` shift of 32 or more) and more than 65 for part two (the 64-byte buffer) are preconditions, as is a `concat` operand of `10^18` or more, where the power search unwraps `None`.
- Day07: the sums of `run` over the accepted lines are not modelled separately; `parse_data` and `Line::parse` are.
- Day09.Star1 and Day09.Star2: checksums are unbounded; a `usize` overflow of the sums is not modelled. The `u32` file ids must stay below `FREE_SPACE` and every file digit of part two must be non-zero (its `len - 1` underflows otherwise); both are preconditions. The sample answers of the tests (1928 and 2858) are not proved.
- Day11.Memo.BlinkCached: stones are unbounded; the `u64` overflow of `stone * 2024`, and the overflow of `split_stone`'s search from `10^18` on, both panics in the source, are not modelled. Below `10^18` the search is proved to give the halves (`SplitStoneIsHalves`), which the model uses.
- Day11: the larger sample (`125 17` giving 22 stones after 6 blinks and 55312 after 25) is not proved. Each unfolding of `Count` or `Blinks` splits stones whose digit counts the solver must find through `Pow10` bounds, and 25 nested unfoldings over a growing list of stones is far more than one proof can carry. The one-blink example of the tests (`0 1 10 99 999` giving seven stones) is proved (`BlinkExample`, `BlinkStonesExample`).
- Day12: the sample garden of the tests (cost 1930) is not proved. The cost is known through `FenceCostIsRegionSum` as a sum over regions, and the regions of a 10 by 10 literal grid are sets built by the flood's reachability, which would have to be shown cell by cell for each of its eleven regions. Part two is an empty answer in the source. The `usize` overflow of the area, perimeter and total is not modelled.
- Day13.FindMinTokensShift: the floating-point estimate (`src/day13.rs:34-53`) is a parameter; the model checks any estimate exactly as the source does and relates it to the integer Cramer solution, but does not model `f64` rounding, so it does not prove that the source's estimate finds every solution.
- Day13: the colinear warning printed by `run` and the `i64` and `usize` overflow of the check and the sum are not modelled.
- Day14.SafetyFactor: requires that no `i32` coordinate arithmetic and no `usize` product overflows; the source would panic or wrap there. Part two is an empty answer in the source.
- Day15: the split of the input at the first empty line in `run` and the example warehouses of the puzzle are not modelled; part two is an empty answer in the source. Moves start from the position `parse_map` returns, so the robot starts on floor.
- Day15.ParseMap: requires a line that is not empty, like `Grids.Parse`, because the source divides by zero on an input without characters.
- Day16.ShortestPathCost: speaks only of runs cheaper than `usize::MAX`, the source's initial best cost; the `usize` overflow of costs is not modelled, and the binary heap is a sequence from which a least node is taken, with ties among equal nodes left open. Part two is an empty answer in the source.
- Day17: a run is given a fuel bound on the instructions it executes (`Run1`, `Oct`) and `run2_impl` a bound on the nodes it takes; the source loops for as long as it must. A run that would panic on a shift by 64 or more ends with no result. The `verbose` printing of `run2_impl` and the global command line flag are left out.
- Day17.Run2Impl: states that a returned value is accepted, not that the search finds the least such value or any value when one exists; the 117440 example of part two is not proved. A program with 22 or more numbers returns no result, where the source's mask shift panics.
- Day18.Star2: requires every byte to lie in the square, since the source unwraps the distance of its cell; the `verbose` printing is left out. Star2 needs blocked cells to be write-once, which makes it speak of the file's bytes on the square, not of arbitrary grids.
- Day18: distances are unbounded naturals with `u16::MAX` as the unreached mark, and the grid may hold at most that many cells, so the `u16` distance never wraps. The example of the tests (22 steps, byte 6,1) is not proved.
- Day19: the `HashSet`s of patterns are sets and the `BTreeMap` a map, whose lengths the search tries in increasing order. Part two is an empty answer in the source; the source has no example to check.
- Day20: the count of `run` over the cheats saving at least 100 is not modelled; the cheat examples of the tests (savings 12, 20, 38, 64 and the counts 32, 23, 14, 3) are not proved.
- Day20.Fill, Day20.FindPath, Day20.Visit, Day20.FillStops, Day20.FilledOf: require a grid of at most `u16::MAX` (65535) cells, so that no distance written can wrap the `u16`. The source accepts a grid of any size and needs only the distances it writes before reaching the end to stay below `u16::MAX`; a larger grid with a short track is outside the model.
- Day20.FindCheats: requires that no cheat saves less than nothing, which `ChainNoShortJump` proves for chains of at most 65535 cells, and that every path cell lies on the grid, where the source unwraps.
- Day20.CountNew: requires `NoUnderflow`, which `ChainNoUnderflow` proves for any chain; `find_cheats_new` would panic on an underflow otherwise.
- Day21: `star1` and `key_push_count` return 0 in the source (`src/day21.rs:7-13`) and are left out; part two is an empty answer. The test's key sequence that types "029A" is not proved, and the counts 68, 60, 64 and 126384 of the tests are not what the source computes.
- Day21: each robot's `&mut u16` is a position returned by `Push`, and an array element updated in place by `PushChain`; the keypads are ASCII, so a byte index is a character index. `Step` requires that a typed key fits in the eight-byte buffer, where the source would panic.
- Day22: the examples of the tests that need 2000 steps (the secret 8685429, the sums 37327623 and 23) are not proved; the sums of `star1` and `star2` are unbounded, where `usize` could overflow. The `HashMap`s are maps, whose iteration order does not change the result.
- Day23: `run` and its formatting are not modelled, and the example (7 triangles, `co,de,ka,ta`) is not proved. A self-link line such as `ab-ab` is accepted, as in the source; the triangle lemmas assume a network without self-links.
- Day23.Star2: ties between largest cliques are broken by the hash order of the seen sets in the source (`src/day23.rs:56-65`); the model states only that a largest one is named. The answer is empty when the largest clique has three computers, as in the source.
- Day23.Network.IntoSubnets: `first()` is any computer of the map, and the partition is stated through the ghost `parts` together with `PartitionFacts`.
- Day24: `run` and its formatting are not modelled; its second number is the size of the gate map. The second sample (2024) is not proved; the first (4) is.
- Day24.Star1: requires every output evaluation to finish within the fuel; the source recursion has no bound and does not return on a cyclic circuit.
- Day24: the hash maps are Dafny maps, and `Some(false)` versus `None` for a gate whose inputs are missing is kept as in the source.
- Day25: `run` is not modelled, and the puzzle has no second part.
- Day25.Fits: requires the `u8` additions not to overflow (`AllFitsOk`), where the source would panic in a debug build.
- Day25.FromStr: requires the text to hold a non-empty line, where the source unwraps the top-left cell and would panic.
- Day25.ParseSchems: requires every block reached to hold a non-empty line, for the same reason.
- Extrapolate: the second sample (202300-th value) is not proved; the first sample is.
- Extrapolate.Nth: requires every sum and product to fit in 64 bits (`NthFits`), where the source would overflow `usize`; the iterator is a finite sequence.
- Extrapolate.FromDiffv: requires the scan and the sum to fit in 64 bits (`Fits`).
- QuadMaps: coordinates are unbounded integers; `i32` overflow at `p.0 + 1` in `extend_one` is not modelled. The `bounds` accessor is a plain field read.
- QuadMaps.QuadMap.At: states only the unallocated case in its contract; the allocated case is `Cell`, stated by `CellOfWrite` after each write.

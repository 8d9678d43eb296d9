# Advent of Code 2025 solutions, days 1 to 12, in Dafny

This project models the twelve puzzle solvers of a Rust Advent of Code 2025
repository (`src/bin/01.rs` to `src/bin/12.rs`, plus the alternative day 8
solver `src/bin/08_fast.rs`). Each solver reads the puzzle input as text and
returns `Option<u64>` for part one and part two. One Dafny module per solver
(`Day01` … `Day12`, `Day08Fast`, with `Day09Polygon`, `Day10Joltage` and
`Day10Lights` for the larger parts) holds:

- the data of the day (dial moves, id ranges, battery banks, the paper-roll
  grid, fresh-ingredient ranges, worksheets, the tachyon manifold, junction
  boxes, red tiles, machines, the device graph, presents and regions);
- the solver's operations, as functions where the Rust code is a chain of
  iterator adapters and as methods with loop invariants where it updates
  variables, a grid, a heap or a union-find forest step by step;
- lemmas stating what each answer means, against an independent reference
  definition (the dial clicks that really reach 0, the ids that really are a
  block written twice, the largest number a bank can really form, the
  rolls that really have fewer than four neighbours, the bottleneck of a
  minimum spanning tree, and so on).

Shared modules: `Base` (options, sums, powers of ten, `u64` wrapping),
`Text` (lines, splitting, trimming, decimal parsing and printing), `Sorting`
(sortedness and permutations), `DisjointSets` (the union-find forest of day
8), `Junctions` and `Circuits` (the geometry and connectivity of day 8).

Conventions of the model:

- A panic of the Rust code (`unwrap` on `None`, an index out of bounds, an
  overflowing subtraction in a debug build) is modelled as a `None` result.
- `&str` is `seq<char>` and a byte is a `char` below 256; lines are split at
  `'\n'` as `str::lines` does, dropping one trailing empty line.
- Integers are unbounded; where a `u64`/`i64`/`u16` width changes the result
  the model says so explicitly (`AsU64`, the `u16` shift of day 10,
  `parse::<u64>` rejecting values above `u64::MAX`), and "## Left out" lists
  the widths it does not model.

## Model

| member | source | states |
|---|---|---|
| Day01.TruncRem | src/bin/01.rs:45-47 | Rust's `%`: equal to the Euclidean remainder for a non-negative dividend and to minus the remainder of the absolute value for a negative one |
| Day01.Advance | src/bin/01.rs:33-35 | the new position lies in `0..100` and differs from `state + delta` by a multiple of 100 |
| Day01.ZeroHits | src/bin/01.rs:39-62 | no clicks for an empty move, and from 0 exactly one per full lap |
| Day01.ZeroHitsCounts | src/bin/01.rs:39-62 | `zero_hits` equals the number of single clicks `1..=|steps|` of the move that land on 0 |
| Day01.HitIff | src/bin/01.rs:43-53 | `n` clicks from `state` land on 0 exactly when `n` is the distance to the next 0 plus a multiple of 100 |
| Day01.HitsClosedForm | src/bin/01.rs:55-61 | the number of landing clicks among the first `n` is 0 below the distance to the next 0 and `1 + (n - dist) / 100` from it on |
| Day01.LandingIsHit | src/bin/01.rs:11-14 | a non-empty move that ends on 0 passes 0 at least once |
| Day01.ParseLine | src/bin/01.rs:64-73 | an empty line panics (`line[1..]`); an unparsable count reads as 0 |
| Day01.ParseLineRoundTrip | src/bin/01.rs:64-73 | `L<n>` reads back as `-n` and `R<n>` as `n` |
| Day01.DialIsSum | src/bin/01.rs:6-19 | after any moves the dial stands at `(50 + sum of the moves) mod 100` |
| Day01.LandingsAtMostPasses | src/bin/01.rs:6-31 | without empty moves, part one's count never exceeds part two's |
| Day01.PassesStep | src/bin/01.rs:25-28 | one more move adds its clicks past 0 counted from where the dial stood, and moves the dial by `advance` |
| Day01.PartOne | src/bin/01.rs:6-19 | the answer is the number of moves that leave the dial on 0, or `None` when a line panics |
| Day01.PartOneLines | src/bin/01.rs:10-16 | the loop over the lines computes that count |
| Day01.PartTwo | src/bin/01.rs:21-31 | the answer is the number of clicks that pass 0 over all moves, or `None` when a line panics |
| Day01.PartTwoLines | src/bin/01.rs:25-28 | the loop over the lines computes that count |
| Day02.Digits | src/bin/02.rs:109-111 | the digit count of a positive number is at least 1 |
| Day02.DigitsBounds | src/bin/02.rs:109-111 | a positive number lies in `[10^(d-1), 10^d)` for its digit count `d` |
| Day02.DigitsOf | src/bin/02.rs:109-111 | conversely a number in `[10^(d-1), 10^d)` has `d` digits |
| Day02.DigitsMonotone | src/bin/02.rs:109-111 | a larger number never has fewer digits |
| Day02.RepeatBlockOnes | src/bin/02.rs:98-106 | the fold of `repeat_block` equals the block times the number whose slots of `len` digits each hold 1 |
| Day02.RepeatBlockBounds | src/bin/02.rs:98-106 | a block that fits its slot gives a number in `[b * 10^(len(k-1)), (b+1) * 10^(len(k-1)))`, below `10^(len k)` |
| Day02.RepeatBlockSlots | src/bin/02.rs:98-106 | every slot of `len` digits of the result holds the block |
| Day02.AllNines | src/bin/02.rs:69 | `repeat_block(9, len, 1)`, the end of the block range, is `10^len - 1` |
| Day02.RepeatMonotone | src/bin/02.rs:72-74 | a bigger block gives a bigger repeated number |
| Day02.IsRepeatedBlockIff | src/bin/02.rs:86-90 | `is_repeated_block` holds exactly when every slot of `len` digits equals the lowest one |
| Day02.RepeatableLengths | src/bin/02.rs:93-95 | the listed lengths are exactly the `l` in `1..=n/2` that divide `n` |
| Day02.RepeatableLengthsIncreasing | src/bin/02.rs:93-95 | they come in increasing order |
| Day02.RepeatableIff | src/bin/02.rs:86-95 | a repeatable length on which `is_repeated_block` holds is exactly a block written `digits / len >= 2` times |
| Day02.InvalidRepeatedIff | src/bin/02.rs:77-81 | some repeatable length passing `is_repeated_block` is exactly "a block written at least twice" |
| Day02.BlockShape | src/bin/02.rs:67-74 | a block of exactly `len` digits repeated `d / len` times has `d` digits and is a repeated block of length `len` |
| Day02.BlocksOfMembers | src/bin/02.rs:65-81 | the ids generated for one block length are exactly the `d`-digit repeated blocks of that length with no shorter repeating length |
| Day02.GeneratedSound | src/bin/02.rs:72-81 | every generated id is a positive repetition of a block in the block range that passes the filter |
| Day02.GeneratedComplete | src/bin/02.rs:72-81 | every block of the range whose repetition passes the filter is generated |
| Day02.GeneratedIncreasing | src/bin/02.rs:72-74 | the ids of one block length come in increasing order |
| Day02.LeastLength | src/bin/02.rs:77-81 | a repeated id has a shortest repeating length, so the filter keeps it once |
| Day02.IterInvalidIdsMembers | src/bin/02.rs:63-83 | `iter_invalid_ids(d)` yields exactly the `d`-digit ids that are a block written at least twice |
| Day02.IterInvalidIdsDigits | src/bin/02.rs:63-83 | every id it yields has `d` digits |
| Day02.IterInvalidIdsDistinct | src/bin/02.rs:63-83 | it never yields an id twice |
| Day02.IterInvalidIdsGrouped | src/bin/02.rs:63-83 | over all digit counts, the ids it yields for `d` have `d` digits |
| Day02.IterInvalidIdsEachDistinct | src/bin/02.rs:63-83 | for every digit count its ids are distinct |
| Day02.Within | src/bin/02.rs:58 | the filter keeps exactly the ids inside `start..=end` |
| Day02.FromDigitsMembers | src/bin/02.rs:54-59 | the flat map over digit counts `lo..=hi` lists exactly the in-range ids of `ids(d)` for their own digit count `d` in `lo..=hi` |
| Day02.FromDigitsBound | src/bin/02.rs:54-59 | a listed id has a digit count in `lo..=hi` and lies in the range |
| Day02.FromDigitsHas | src/bin/02.rs:54-59 | an in-range id of `ids(d)` with `lo <= d <= hi` is listed |
| Day02.FromDigitsDisjoint | src/bin/02.rs:54-59 | ids of different digit counts never coincide |
| Day02.FromDigitsDistinct | src/bin/02.rs:54-59 | no id is listed twice |
| Day02.RangeInvalidIds | src/bin/02.rs:46-60 | `iter_range_invalid_ids` lists exactly the ids of the range that are a block written at least twice, each once |
| Day02.Halves | src/bin/02.rs:34-35 | for `2h` digits, `id % 10^h` is slot 0 and `id / 10^h` is slot 1 |
| Day02.HalvesIff | src/bin/02.rs:28-37 | two equal halves is exactly a block written twice |
| Day02.InvalidIds | src/bin/02.rs:26-39 | `invalid_ids` lists exactly the ids of the range with two equal halves, in increasing order |
| Day02.RangeHalvesIds | src/bin/02.rs:26-39 | those are exactly the range's blocks written twice, and each is also listed by part two |
| Day02.ParseRange | src/bin/02.rs:16-18 | a parsed range came from text holding `-`, with both ends within `u64` |
| Day02.ParseRangeRoundTrip | src/bin/02.rs:16-18 | `a-b` parses back to `(a, b)` |
| Day02.ParseInputRoundTrip | src/bin/02.rs:15-20 | ranges written `a-b` and joined with commas parse back to themselves |
| Day02.TotalOneAtMostTwo | src/bin/02.rs:5-13 | over any ranges, the sum of part-one ids is at most the sum of part-two ids |
| Day02.PartOne | src/bin/02.rs:5-8 | the answer is missing exactly when the input does not parse or a range starts at 0 (`digits(0)` panics) |
| Day02.PartTwo | src/bin/02.rs:10-13 | the answer is missing exactly when the input does not parse or some range end is 0 |
| Day02.PartOneAtMostPartTwo | src/bin/02.rs:5-13 | when part two answers, part one answers too and is no larger |
| Day03.FirstMaxIn | src/bin/03.rs:38-46 | the scan's position lies in the window |
| Day03.FirstMaxIsFirstLargest | src/bin/03.rs:40-46 | the scan ends on the first occurrence of the largest byte of the window: nothing in the window is larger, and everything before it is smaller |
| Day03.Picks | src/bin/03.rs:32-53 | the solver picks `k` positions, all from the cursor on |
| Day03.Pick | src/bin/03.rs:49 | the picked characters are those of the line at the picked positions |
| Day03.RunFails | src/bin/03.rs:49 | the accumulator `10 * acc + (max - b'0')` underflows exactly when some picked byte is below `'0'` |
| Day03.RunDigits | src/bin/03.rs:49 | on digits the accumulator yields the old value shifted left by their count plus the decimal value they spell |
| Day03.DecimalCompare | src/bin/03.rs:49 | digit strings of one length compare by their first digit, then by the rest |
| Day03.AscendingIff | src/bin/03.rs:32-53 | the picked positions increase step by step exactly when any earlier one is below any later one |
| Day03.PicksChoice | src/bin/03.rs:32-53 | the picks are an order-preserving choice of `k` positions of the line, leaving room for the digits still to pick |
| Day03.GreedyLead | src/bin/03.rs:35-46 | the first pick holds the largest byte any order-preserving choice of `k` positions can start with, at the earliest place |
| Day03.GreedyTail | src/bin/03.rs:51-52 | after the first pick the solver picks `k - 1` positions from just past it |
| Day03.GreedyLex | src/bin/03.rs:32-53 | no order-preserving choice of `k` characters spells a string above the picks in dictionary order |
| Day03.LexValue | src/bin/03.rs:49 | for digit strings of one length, dictionary order is numeric order |
| Day03.GreedyMax | src/bin/03.rs:32-53 | no order-preserving choice of `k` digits spells a larger number than the picks |
| Day03.LineValueMaximal | src/bin/03.rs:18-59 | on a bank of digits at least `N` long, the joltage is the largest number any `N` batteries spell in order |
| Day03.WindowMax | src/bin/03.rs:38-46 | the scan of `bytes[cursor..end]` returns the first position of its largest byte and that byte, and `(0, 0)` on an empty window |
| Day03.JoltageStep | src/bin/03.rs:35-52 | one round of the loop extends the accumulator by the scan's byte and moves the cursor past it, or underflows |
| Day03.LineJoltage | src/bin/03.rs:26-53 | the loop over one line computes the joltage of the bank (`None` when the line is shorter than `N` or the accumulator underflows) |
| Day03.Solve | src/bin/03.rs:18-59 | the answer is the sum of the joltages of all lines, `None` when a line panics |
| Day03.PartOne | src/bin/03.rs:3-5 | the answer is the total joltage with two batteries per bank |
| Day03.PartTwo | src/bin/03.rs:7-9 | the answer is the total joltage with twelve batteries per bank |
| Day04.PartOne | src/bin/04.rs:10-47 | `None` without a `'\n'`; otherwise the number of bytes, all but the last, that are a roll with fewer than 4 rolls among the eight bytes of its three windows |
| Day04.AccessibleRolls | src/bin/04.rs:10-47 | the corrected count, over every byte, is missing exactly when the text has no `'\n'` |
| Day04.PartOneMissesOnlyLastByte | src/bin/04.rs:18-20 | part one agrees with the corrected count unless the last byte is an accessible roll, and then falls short by one |
| Day04.LastRollMissed | src/bin/04.rs:18-33 | on `"@\n@"` part one counts 1 where the grid has two accessible rolls |
| Day04.NeighbourByte | src/bin/04.rs:18-31 | the padded windows see a roll exactly where the grid has one: bytes before or after the text and row ends are never rolls |
| Day04.WindowIsNeighbourhood | src/bin/04.rs:33-39 | in a text of equal rows, the three windows around a byte are exactly that grid cell and its eight neighbours |
| Day04.CentreIsCell | src/bin/04.rs:33-43 | a byte is counted exactly when it is a grid cell holding a roll with fewer than 4 neighbouring rolls |
| Day04.CountIsGridCount | src/bin/04.rs:33-44 | over a text of equal rows the byte count equals the count of accessible grid cells |
| Day04.AccessibleRollsCountsGrid | src/bin/04.rs:10-47 | the corrected count is the number of accessible rolls of the grid |
| Day04.CreatePaddedGrid | src/bin/04.rs:95-130 | builds the padded grid (border row, left border, cells, row borders, missing final `'\n'`, border row) and the positions of exactly its rolls, one per `'@'` |
| Day04.PushText | src/bin/04.rs:108-121 | the loop over the characters appends their cells and records the index of every roll |
| Day04.PushCell | src/bin/04.rs:109-120 | one character appends a roll, an empty cell, two border cells or nothing, and records a roll's index |
| Day04.PaddedRollsInside | src/bin/04.rs:102-129 | every roll of the padded grid lies a row and a column inside it, so `is_removable` reads only cells of the grid |
| Day04.PaddedRollsCount | src/bin/04.rs:108-121 | the padded grid holds one roll per `'@'` of the text |
| Day04.IsRemovable | src/bin/04.rs:134-149 | holds exactly when the 3x3 block around `i`, centre included, holds fewer than 5 rolls |
| Day04.RemovableIffFewNeighbours | src/bin/04.rs:147-148 | for a roll, that is fewer than 4 rolls among its eight neighbours |
| Day04.Pass | src/bin/04.rs:70-78 | a pass keeps the grid's size and keeps at most the positions it visits |
| Day04.PassKeepsSome | src/bin/04.rs:70-78 | the kept positions are among the visited ones, still inside the grid |
| Day04.PassExact | src/bin/04.rs:70-78 | a pass over exactly the rolls, in increasing order, leaves exactly the kept positions as rolls |
| Day04.PassTrack | src/bin/04.rs:70-78 | after a pass a cell is a roll exactly when it was one and the pass, if it visited it, kept it; kept positions stay in increasing order |
| Day04.PassStable | src/bin/04.rs:80-82 | a pass that removes nothing changes nothing, and then every visited roll has at least four neighbouring rolls |
| Day04.Erode | src/bin/04.rs:67-89 | repeated passes keep the grid's size and never add positions |
| Day04.ErodeFinal | src/bin/04.rs:67-89 | when the passes stop, the rolls left are exactly the kept positions, each with at least four neighbouring rolls, and each was a roll at the start |
| Day04.Removals | src/bin/04.rs:55-92 | the answer of part two is missing exactly when the text has no `'\n'` |
| Day04.RemovalsMeaning | src/bin/04.rs:55-92 | part two answers the number of `'@'` less the rolls left once no roll is removable, and the left grid is settled as above |
| Day04.RemovalPass | src/bin/04.rs:70-78 | one pass over the array clears the removable rolls in order and returns the survivors and the number removed, as `Pass` does |
| Day04.RemoveUntilStable | src/bin/04.rs:67-89 | the loop's removals plus the rolls `Erode` leaves make up all starting positions |
| Day04.PartTwo | src/bin/04.rs:55-92 | the method computes `Removals` |
| Day05.DisjointIff | src/bin/05.rs:80-83 | for non-empty ranges `are_disjoint` holds exactly when no integer lies in both, so ranges sharing an endpoint overlap |
| Day05.OverlapsIn | src/bin/05.rs:44-48 | the collected indices increase, stay below the list's length, and each names a range overlapping the new one |
| Day05.OverlapsExact | src/bin/05.rs:44-48 | an index is collected exactly when its range overlaps the new one |
| Day05.SwapRemove | src/bin/05.rs:69 | `swap_remove` shortens the list by one and moves the last element into the removed slot |
| Day05.SwapRemovePairwise | src/bin/05.rs:69 | `swap_remove` keeps a pairwise disjoint list pairwise disjoint |
| Day05.RemovedOrigin | src/bin/05.rs:67-70 | every range left after removing at the indices, largest first, stood at an index that was not removed |
| Day05.Survivor | src/bin/05.rs:67-70 | every range at an index that was not removed is still in the list |
| Day05.RemoveDescendingPairwise | src/bin/05.rs:67-70 | the removals keep the list pairwise disjoint |
| Day05.Hull | src/bin/05.rs:56-65 | the widened range contains the new range |
| Day05.HullCovers | src/bin/05.rs:56-65 | the hull of a range with ranges overlapping it is non-empty and covers exactly what they and the range cover |
| Day05.KeptMissHull | src/bin/05.rs:67-73 | a range that is not removed is disjoint from the pushed hull |
| Day05.AbsorbCovers | src/bin/05.rs:42-75 | one round of the outer loop adds exactly the new range's points to what the list covers |
| Day05.AbsorbInvariant | src/bin/05.rs:42-75 | one round keeps the list non-empty and pairwise disjoint |
| Day05.DisjointRanges | src/bin/05.rs:33-78 | the merged list is never longer than the input |
| Day05.DisjointRangesCorrect | src/bin/05.rs:33-78 | for non-empty input ranges the merged list is pairwise disjoint, non-empty and covers exactly the integers the input covers |
| Day05.EmptyRangeBreaksDisjointness | src/bin/05.rs:33-83 | with the empty range `6-4` in the input, the result `[6-4, 1-9]` is not pairwise disjoint |
| Day05.EmptyRangeAbsorb | src/bin/05.rs:42-75 | `1-5` merges with `5-9` only, leaving `6-4` beside the hull `1-9` |
| Day05.CollectOverlapping | src/bin/05.rs:44-48 | the first inner loop collects, in increasing order, exactly the indices of the ranges overlapping the new one |
| Day05.WidenHull | src/bin/05.rs:57-65 | the second inner loop widens the range to the hull of itself and every overlapping range |
| Day05.RemoveOverlapping | src/bin/05.rs:68-70 | the third inner loop performs the `swap_remove`s, largest index first, and removes exactly as many ranges as were collected |
| Day05.CreateDisjointRanges | src/bin/05.rs:33-78 | the loops compute the merged list; for non-empty ranges it is pairwise disjoint and covers exactly what the input covers |
| Day05.ParseRange | src/bin/05.rs:87-93 | a parsed line held a `-` and both ends fit in `u64` |
| Day05.ParseRangeRoundTrip | src/bin/05.rs:87-93 | `a-b` parses back to the range `a..=b` |
| Day05.RangeCount | src/bin/05.rs:87 | `take_while` hands over exactly the lines before the first empty one |
| Day05.RangeCountOf | src/bin/05.rs:87 | it stops at the empty line that follows non-empty ones |
| Day05.ParseInventoryRoundTrip | src/bin/05.rs:86-99 | ranges, an empty line and ids, one per line, parse back to the same ranges and ids |
| Day05.CountCovered | src/bin/05.rs:16 | the count is at most the number of ids |
| Day05.CountCoveredPositions | src/bin/05.rs:16 | the count is the number of positions, not of distinct ids, whose id lies in some range |
| Day05.CountCoveredSameCover | src/bin/05.rs:12-16 | two lists of ranges covering the same integers accept the same ids |
| Day05.PartOne | src/bin/05.rs:9-19 | the answer counts the ids inside some merged range, `None` when a line panics; for non-empty ranges it is the number of ids inside some input range |
| Day05.PointsCount | src/bin/05.rs:27 | a non-empty range holds `end - start + 1` integers |
| Day05.Width | src/bin/05.rs:27 | the width exists exactly for a non-empty range (the `u64` subtraction panics otherwise) |
| Day05.TotalWidth | src/bin/05.rs:27 | the sum exists exactly when every range is non-empty |
| Day05.TotalWidthCounts | src/bin/05.rs:27 | over pairwise disjoint non-empty ranges the sum of widths is the number of covered integers |
| Day05.FrontMissesLast | src/bin/05.rs:27 | no integer of the last of pairwise disjoint ranges is covered by those before it |
| Day05.PartTwo | src/bin/05.rs:21-30 | the answer is the total width of the merged ranges, `None` when a line panics; for non-empty ranges it is the number of integers some range covers |
| Day06.FoldSnoc | src/bin/06.rs:26-31 | folding one more element applies the operation once more at the end |
| Day06.FoldAdd | src/bin/06.rs:26-31 | folding with `Add` adds the sum of the elements to the start value |
| Day06.FoldMultiply | src/bin/06.rs:26-31 | folding with `Multiply` multiplies the start value by the product of the elements |
| Day06.ParseInput1 | src/bin/06.rs:36-63 | the loop over the lines collects the numbers of every number line in row-major order and the operators of the operator lines, `None` when a number does not parse |
| Day06.ParseLinesStep | src/bin/06.rs:40-59 | a line starting with `*` or `+` contributes its `+`/`*` words, any other line its numbers |
| Day06.ReadOps | src/bin/06.rs:44-52 | the words that are exactly `+` or `*` become operators, in order; other words are skipped |
| Day06.ReadNumbers | src/bin/06.rs:54-58 | every word is parsed as `u64` and appended, or the line panics |
| Day06.ParseInput1RoundTrip | src/bin/06.rs:36-63 | rows of numbers written over an operator line parse back to the numbers in row-major order and the operators |
| Day06.OpsInShown | src/bin/06.rs:44-52 | operators written as words read back as themselves |
| Day06.NumbersFromShown | src/bin/06.rs:54-58 | numbers written as words read back as themselves |
| Day06.ColumnEntry | src/bin/06.rs:70-73 | entry `k` of a column of the row-major table lies `k` rows below its top |
| Day06.ColumnLength | src/bin/06.rs:70-73 | a column runs down to the table's last row |
| Day06.FoldColumnIsFold | src/bin/06.rs:70-73 | folding row by row into the first row is folding over the column |
| Day06.ColumnResultMeaning | src/bin/06.rs:65-77 | what is left in column `c` of the first row is the sum of the column for `+` and its product for `*` |
| Day06.FoldRow | src/bin/06.rs:71-73 | one row is folded into the first row entry by entry, a short last row stopping early; the other entries are unchanged |
| Day06.DoHomework1 | src/bin/06.rs:65-77 | the answer is the sum over the columns of their results, the first row holding those results afterwards; `None`, data untouched, when there are no operators or fewer numbers than operators |
| Day06.PartOne | src/bin/06.rs:8-12 | the answer of part one on the parsed worksheet |
| Day06.OpsOfShown | src/bin/06.rs:84-88 | the operator line of part one reads as the same operators byte by byte |
| Day06.Advance | src/bin/06.rs:101-102 | every line loses its first byte and the number of lines stays |
| Day06.HeadDigit | src/bin/06.rs:102-103 | only a leading digit contributes |
| Day06.AdvanceShrinks | src/bin/06.rs:98-120 | a column step never grows the lines, and one that read a digit consumes at least one byte, so every problem ends |
| Day06.AdvanceByShift | src/bin/06.rs:98-107 | after `j` column steps every line has lost its first `j` bytes |
| Day06.ProblemNumber | src/bin/06.rs:98-120 | number `j` of a problem is the top-to-bottom digit reading of column `j`, and it is not zero |
| Day06.ProblemEnd | src/bin/06.rs:109-117 | a problem ends at the first column that reads as zero, and that column is consumed with it |
| Day06.ReduceMeaning | src/bin/06.rs:110-112 | the reduction is the sum for `+`, the product for `*`, and 0 without numbers |
| Day06.ReadColumn | src/bin/06.rs:99-107 | takes the first byte off every line and returns the number its digits spell top to bottom |
| Day06.ColumnNumberStep | src/bin/06.rs:101-106 | one more line appends its leading digit to the number, or leaves it |
| Day06.SolveProblem | src/bin/06.rs:98-120 | returns the reduction of the problem's numbers and leaves the lines after its closing column |
| Day06.DoHomework2 | src/bin/06.rs:93-124 | the answer is the sum of the problems' results, one problem per operator in order |
| Day06.PartTwo | src/bin/06.rs:14-18 | the answer of part two on all lines but the last, with the operators of the last; `None` for text without lines |
| Day07.Initial | src/bin/07.rs:19-24 | the beam counters are as wide as the first line, hold one timeline at the `S` column, and one timeline in all |
| Day07.SplitBeam | src/bin/07.rs:35-39 | a split moves the column's timelines onto both neighbours and empties the column; every other column is unchanged |
| Day07.Step | src/bin/07.rs:26-47 | a byte fails exactly when it is a splitter read past the counters, or a splitter holding beams in the first or last column (the unchecked accesses leave the vector); otherwise the width stays and the cursor moves to the next column, or to 0 after a line end |
| Day07.StepSplits | src/bin/07.rs:27-39 | a splitter holding beams inside the walls splits them and counts one split |
| Day07.StepPasses | src/bin/07.rs:27-47 | any other byte only moves the cursor |
| Day07.SplitAt | src/bin/07.rs:35-39 | the three writes of a split, done in place, give `SplitBeam` |
| Day07.RunBeams | src/bin/07.rs:26-52 | the loop over the remaining bytes, updating the counters in place, returns the splits and the sum of the counters of the modelled run |
| Day07.SimulateTachyonManifold | src/bin/07.rs:13-53 | the method computes the modelled simulation |
| Day07.SimulateRuns | src/bin/07.rs:14-26 | once `S` and the line end after it are found, the width is that line end's index, the `S` lies inside it, and the answer is the outcome of the loop over the bytes after that line end |
| Day07.SimulateNeedsStart | src/bin/07.rs:16-17 | an answer needs an `S` with a line end after it |
| Day07.CursorAfterAppend | src/bin/07.rs:43-47 | the cursor after two pieces of text is the cursor after the first, continued over the second |
| Day07.CursorWithinLine | src/bin/07.rs:43 | without a line end the cursor moves one column per byte |
| Day07.CursorIsColumn | src/bin/07.rs:43-47 | after a line end the cursor is the column within the current line |
| Day07.RunCursor | src/bin/07.rs:26-48 | the loop's cursor follows the column, and the counters keep their width |
| Day07.RunLedger | src/bin/07.rs:26-50 | every split takes a positive number of timelines and raises the total by exactly that number; there are no more splits than splitters |
| Day07.TimelinesAtLeastSplits | src/bin/07.rs:3-11 | part two's timelines are at least part one's splits plus one, and the splits are at most the number of `^` |
| Day07.WalledRuns | src/bin/07.rs:34-39 | when every splitter is read strictly between the first and last column, no access leaves the counters |
| Day07.WalledSimulates | src/bin/07.rs:13-53 | with an `S` followed by a line end and walls round every splitter below it, both parts have an answer |
| Day08.ParseLine | src/bin/08.rs:83-88 | a parsed line yields three coordinates within `i64` |
| Day08.ParseLineRoundTrip | src/bin/08.rs:83-88 | `x,y,z` parses back to the box `(x, y, z)` |
| Day08.ParseInputRoundTrip | src/bin/08.rs:82-89 | boxes written one per line parse back to the same boxes |
| Day08.GeneratePairs | src/bin/08.rs:65-80 | `n (n - 1) / 2` cables, one for every pair `a < b` of boxes with its squared distance, each pair once, sorted by distance |
| Day08.PermutedPairs | src/bin/08.rs:69-75 | sorting keeps every pair, once |
| Day08.DisjointSetUnion.constructor | src/bin/08.rs:103-108 | `n` singleton sets, each its own parent, and `num_sets == n` |
| Day08.DisjointSetUnion.Find | src/bin/08.rs:111-118 | returns the root of the set of `i`, a fixed point of `parents`; the sets and their count are unchanged, and only parents on the walk from `i` are rewired (path halving) |
| Day08.DisjointSetUnion.Union | src/bin/08.rs:122-133 | reports whether the sets of `i` and `j` were separate, unites them, and lowers `num_sets` by one exactly when it did |
| Day08.Grandparent | src/bin/08.rs:112-114 | two steps up the walk from `i` is still on it |
| Day08.HalvingStep | src/bin/08.rs:113-114 | pointing an element at its grandparent and moving there keeps the forest, its sets and the walk invariant |
| Day08.ValuesByKeyTally | src/bin/08.rs:27-35 | reading the root-to-size map in key order yields the sizes of the sets in the order of their roots |
| Day08.PartOne | src/bin/08.rs:19-42 | the answer multiplies the three largest circuit sizes after connecting the `CONNECTIONS` closest pairs (all pairs when there are fewer), `None` when a line panics |
| Day08.LargestCircuits | src/bin/08.rs:20-41 | the same on parsed boxes |
| Day08.ConnectClosest | src/bin/08.rs:23-25 | after the loop the union-find holds the circuits of the first `m` cables |
| Day08.TallyRoots | src/bin/08.rs:27-35 | counting each element's root in a map and reading the map gives the circuit sizes in root order; the sets are unchanged |
| Day08.PartOneSizes | src/bin/08.rs:27-35 | the circuit sizes add up to the number of boxes |
| Day08.PartTwo | src/bin/08.rs:44-59 | answers exactly when there are at least two boxes, with the product of the x coordinates (cast to `u64`) of the first cable after which one circuit remains; `None` when a line panics |
| Day08.LastConnection | src/bin/08.rs:45-58 | the same on parsed boxes |
| Day08.StillApart | src/bin/08.rs:48-55 | one more union that leaves several circuits extends "no prefix so far connects everything" |
| Day08.ConnectedCount | src/bin/08.rs:53 | `num_sets == 1` exactly when the cables so far leave one circuit |
| Day08.LastPairIsBottleneck | src/bin/08.rs:44-59 | the cable that completes the single circuit has the bottleneck length and is a heaviest edge of a minimum spanning tree |
| DisjointSets.Identity | src/bin/08.rs:106 | `n` singletons, each labelled by itself |
| DisjointSets.MergeFacts | src/bin/08.rs:122-133 | a union keeps a labelling, joins exactly the two sets involved, and is a no-op when they are one |
| DisjointSets.MergeSame | src/bin/08.rs:126-132 | uniting two elements of one set changes nothing |
| DisjointSets.MergeCount | src/bin/08.rs:126-129 | uniting two different sets removes exactly one root |
| DisjointSets.IdentityCount | src/bin/08.rs:104-107 | `n` singletons are `n` sets |
| DisjointSets.SingleClass | src/bin/08.rs:53 | one set holds everything exactly when every element has the label of element 0 |
| DisjointSets.UnionAllKeeps | src/bin/08.rs:122-133 | unions never separate two elements |
| DisjointSets.UnionAllJoins | src/bin/08.rs:48-49 | after all unions the two ends of every link are in one set |
| DisjointSets.UnionAllCrossing | src/bin/08.rs:48-49 | unions along links that never cross a cut never join its two sides |
| DisjointSets.CountLabelPositive | src/bin/08.rs:31 | a root gets a nonzero count exactly when some element leads to it |
| DisjointSets.TallyFacts | src/bin/08.rs:27-35 | the sizes add up to the number of elements, and a size is nonzero exactly at a root |
| DisjointSets.PathFacts | src/bin/08.rs:111-118 | in a forest the label of `k` is the root its parent links lead to, and the walk stays in the tree of `k` |
| DisjointSets.InitialForest | src/bin/08.rs:103-108 | singletons form a forest of roots |
| DisjointSets.Redirect | src/bin/08.rs:113 | pointing a non-root at an element of its tree closer to the root keeps the forest and every label |
| DisjointSets.Link | src/bin/08.rs:127 | pointing one root at another unites their sets as `Merge` says |
| DisjointSets.LinkRoots | src/bin/08.rs:123-129 | hanging the root of `i` below the root of `j` represents their merge and removes one set |
| Circuits.JoinedStep | src/bin/08.rs:23-25 | connecting one more cable merges the circuits of its two ends |
| Circuits.JoinedFacts | src/bin/08.rs:23-25 | the circuits after `q` cables are a labelling in which the ends of each of those cables share a circuit |
| Circuits.CutCrossed | src/bin/08.rs:48-55 | once the first `t + 1` cables leave one circuit, every cut is crossed by one of them |
| Circuits.EndsApart | src/bin/08.rs:48-55 | just before the completing cable is added its two ends lie in different circuits |
| Circuits.ApartIsFar | src/bin/08.rs:48-55 | two boxes in different circuits before cable `t` are at least as far apart as that cable is long |
| Circuits.LastCutUncrossed | src/bin/08.rs:48-55 | the completing cable is a lightest cable across a cut that no shorter cable crosses |
| Circuits.KruskalBottleneck | src/bin/08.rs:44-59 | the completing cable has the bottleneck length and is a heaviest edge of a minimum spanning tree |
| Circuits.AllConnected | src/bin/08.rs:48-56 | with two or more boxes, connecting every cable leaves one circuit |
| Circuits.EventuallyConnected | src/bin/08.rs:48-56 | with two or more boxes some cable is the first to leave one circuit |
| Circuits.FirstConnectingUnique | src/bin/08.rs:53-54 | at most one cable is the first to leave one circuit |
| Circuits.FirstConnectingLeast | src/bin/08.rs:53-54 | no shorter prefix of the cables leaves one circuit |
| Circuits.FirstConnectingFound | src/bin/08.rs:53-54 | once found, the completing cable is the only one, and there are at least two boxes |
| Circuits.NeverConnected | src/bin/08.rs:58 | when no prefix leaves one circuit there are fewer than two boxes |
| Circuits.ConnectsIffTwo | src/bin/08.rs:44-59 | some cable completes one circuit exactly when there are at least two boxes |
| Junctions.SqDistFacts | src/bin/08.rs:71 | squared distances are non-negative, symmetric, and 0 from a box to itself |
| Junctions.Zip | src/bin/08_fast.rs:186-219 | three parallel coordinate columns form the boxes, position by position |
| Junctions.PairsBeforeAll | src/bin/08.rs:69-70 | `tuple_combinations` over `n` boxes yields `n (n - 1) / 2` pairs |
| Junctions.Row | src/bin/08.rs:69-72 | row `a` of `tuple_combinations` is the cables `(a, b)` for `b` from `a + 1` up, with their squared distances |
| Junctions.AllPairsFacts | src/bin/08.rs:69-72 | the pairs are `n (n - 1) / 2` cables, one for every `a < b`, each once |
| Junctions.BottleneckLeast | src/bin/08.rs:44-59 | a threshold that crosses every cut is at least the bottleneck distance |
| Junctions.BottleneckUnique | src/bin/08.rs:44-59 | the bottleneck distance is unique, so every construction that attains it reports the same value |
| Sorting.SortBy | src/bin/08.rs:75 | the sorted cables are a permutation of the input, in non-decreasing order of the key |
| Day08Fast.LeadingDigits | src/bin/08_fast.rs:231-234 | the length of the run of digits that starts the text: all digits, and the next byte is not one |
| Day08Fast.Columns | src/bin/08_fast.rs:204-216 | the numbers read go round-robin into `xs`, `ys`, `zs`; a last incomplete box is padded with zeros |
| Day08Fast.ParseI64Fast | src/bin/08_fast.rs:222-237 | reads an optional `-` and the longest run of digits after it, returns their signed decimal value and the index just past the run |
| Day08Fast.SkipSeparators | src/bin/08_fast.rs:196-198 | stops at the first digit (or the end), skipping only non-digits, so no run of digits is lost |
| Day08Fast.ReadRun | src/bin/08_fast.rs:231-234 | the run read is the first of the text's runs of digits |
| Day08Fast.ParseSoa | src/bin/08_fast.rs:186-220 | the three columns are the text's runs of digits taken three at a time (a `-` is always skipped as a separator before it is seen) |
| Day08Fast.ReadBox | src/bin/08_fast.rs:204-216 | one pass of the outer loop consumes the next one to three runs of digits and places them as one box |
| Day08Fast.DisjointSetUnion.constructor | src/bin/08_fast.rs:246-250 | `n` singleton sets, each its own parent |
| Day08Fast.DisjointSetUnion.Find | src/bin/08_fast.rs:253-265 | returns the root of the set of `i`; every element on the walk from `i` now points at the root and nothing else changes; the sets are unchanged |
| Day08Fast.DisjointSetUnion.Union | src/bin/08_fast.rs:267-273 | the sets of `i` and `j` become one and no other set changes |
| Day08Fast.CompressStep | src/bin/08_fast.rs:259-263 | pointing the next element of the walk at the root keeps the forest and its sets |
| Day08Fast.ColumnDist | src/bin/08_fast.rs:23-27 | the squared distance computed from the columns is that of the two boxes |
| Day08Fast.MaxIndex | src/bin/08_fast.rs:38 | the peeked cable is a longest one in the heap |
| Day08Fast.ClosestCables | src/bin/08_fast.rs:16-52 | the heap ends with `min(CONNECTIONS, n (n - 1) / 2)` distinct cables of the boxes, and every pair left out is at least as long as each kept one |
| Day08Fast.OfferPair | src/bin/08_fast.rs:29-49 | offering pair `(i, j)` keeps the heap the closest cables among the pairs seen so far |
| Day08Fast.PushStep | src/bin/08_fast.rs:29-34 | while the heap is not full, pushing the cable keeps it the closest cables seen |
| Day08Fast.ReplaceStep | src/bin/08_fast.rs:40-47 | a cable shorter than the longest kept one replaces it and the heap stays the closest seen |
| Base.RemoveAt | src/bin/08_fast.rs:41 | popping one element leaves the others, in order, and one fewer |
| Day08Fast.KeepStep | src/bin/08_fast.rs:40 | a cable no shorter than the longest kept one is rightly dropped |
| Day08Fast.HeapDone | src/bin/08_fast.rs:19-52 | after all pairs the heap holds a set of closest cables |
| Day08Fast.SortedPrefixIsClosest | src/bin/08.rs:75-77 | the first `CONNECTIONS` sorted cables of the plain solution are such a set too, so both solutions start from a closest set |
| Day08Fast.ConnectAll | src/bin/08_fast.rs:55-59 | after the unions the sets are the circuits of the heap's cables |
| Day08Fast.TallySizes | src/bin/08_fast.rs:62-66 | `sizes[r]` counts the elements whose root is `r` |
| Day08Fast.PartOne | src/bin/08_fast.rs:11-80 | the answer is the product of the three largest circuit sizes for some set of closest cables, `None` when at most three circuits remain (selecting the element at index 3 panics) |
| Day08Fast.CountFalseSet | src/bin/08_fast.rs:121 | visiting one node leaves one fewer unvisited |
| Day08Fast.CountFalsePositive | src/bin/08_fast.rs:103-121 | some node is unvisited exactly when the count of unvisited nodes is positive |
| Day08Fast.PickClosest | src/bin/08_fast.rs:104-119 | picks the first unvisited node of least tentative distance, or none when all unvisited distances are `i64::MAX` |
| Day08Fast.Relax | src/bin/08_fast.rs:136-156 | each unvisited node's tentative distance drops to its distance from `u` when that is smaller, with `u` as its parent |
| Day08Fast.GrowingStart | src/bin/08_fast.rs:91-97 | node 0 at distance 0, all others at `i64::MAX`, is the start of Prim's tree |
| Day08Fast.FirstPick | src/bin/08_fast.rs:125 | the first node picked is node 0 and no later pick is |
| Day08Fast.PrimStep | src/bin/08_fast.rs:103-156 | one round adds the nearest unvisited node to the tree by a lightest edge from it, and keeps each remaining node's tentative distance its distance to the tree |
| Day08Fast.FitsReaches | src/bin/08_fast.rs:104-119 | when all squared distances are below `i64::MAX`, every round finds a node |
| Day08Fast.TreeCrossesCut | src/bin/08_fast.rs:103-157 | a spanning tree crosses every cut with an edge no longer than its heaviest edge |
| Day08Fast.TreeEdgeCut | src/bin/08_fast.rs:125-133 | the edge Prim adds is a lightest edge across the cut between the tree so far and the rest |
| Day08Fast.PickTies | src/bin/08_fast.rs:106-119 | the node picked is the lowest-numbered unvisited node at the least tentative distance: every lower-numbered node outside the tree is strictly farther from every tree node |
| Day08Fast.EarliestStepAt | src/bin/08_fast.rs:145-154 | relaxing a node through the new tree node keeps its parent the earliest tree node at its tentative distance, because a parent is replaced only by a strictly closer node |
| Day08Fast.EarliestStep | src/bin/08_fast.rs:136-156 | after a round every node outside the tree still has the earliest tree node at its distance as its parent |
| Day08Fast.TiesExtend | src/bin/08_fast.rs:103-157 | a step that keeps the tie rules extends a run that keeps them |
| Day08Fast.TiesGrow | src/bin/08_fast.rs:106-133 | the node picked and the parent recorded for it obey the tie rules: the lowest-numbered nearest node, joined through the earliest tree node at that distance |
| Day08Fast.PrimRound | src/bin/08_fast.rs:103-156 | one round keeps the tree growing by the tie rules, with every remaining node's parent the earliest at its distance; only the first round picks node 0 |
| Day08Fast.AddClosest | src/bin/08_fast.rs:103-156 | one round of the loop: it stops only when no unvisited node is reachable under `i64::MAX`, and otherwise adds one node by the tie rules and keeps the recorded edge the first heaviest |
| Day08Fast.StepFresh | src/bin/08_fast.rs:121-127 | each node joins once, through a node already in the tree |
| Day08Fast.StepWeightBound | src/bin/08_fast.rs:106-119 | two runs that agree so far add an edge of the same least length at the next step |
| Day08Fast.StepNodeBound | src/bin/08_fast.rs:106-119 | two runs that agree so far pick the same lowest-numbered node next |
| Day08Fast.StepViaAgrees | src/bin/08_fast.rs:145-154 | two runs that agree so far join the next node through the same parent |
| Day08Fast.RunStepAgrees | src/bin/08_fast.rs:103-157 | two runs that agree up to step `j` agree at step `j` |
| Day08Fast.RunsAgreeUpTo | src/bin/08_fast.rs:103-157 | two runs under the tie rules visit the same nodes in the same order |
| Day08Fast.PrimRunUnique | src/bin/08_fast.rs:103-157 | the tie rules fix the run: the order of the nodes, their parents and the edge lengths are determined by the boxes |
| Day08Fast.FindFirstHeaviest | src/bin/08_fast.rs:125-133 | every run with an edge has a first heaviest edge |
| Day08Fast.HeaviestAnswer | src/bin/08_fast.rs:125-133 | the recorded coordinates are those of the first heaviest edge of the run, `(0, 0)` when no edge is positive |
| Day08Fast.AnswerCoordsUnique | src/bin/08_fast.rs:125-133 | the first heaviest edge's coordinates are determined by the run |
| Day08Fast.PrimAnswerUnique | src/bin/08_fast.rs:85-160 | the answer allowed by the tie rules is unique: the boxes fix it |
| Day08Fast.HeaviestStep | src/bin/08_fast.rs:125-133 | the recorded edge stays the first heaviest one added, with the x coordinates of its ends |
| Day08Fast.PrimResult | src/bin/08_fast.rs:99-157 | the heaviest edge of Prim's tree has the bottleneck length and is a heaviest edge of a minimum spanning tree |
| Day08Fast.SpanningTreeMax | src/bin/08_fast.rs:91-157 | the recorded edge length is the bottleneck distance, and the coordinates are those of the first heaviest edge of the run the tie rules fix (`(0, 0)` when no edge is positive) |
| Day08Fast.PartTwo | src/bin/08_fast.rs:85-160 | answers `x_u * x_p` for the first heaviest edge of the run the tie rules fix, an edge of bottleneck length, so the answer is determined by the boxes; `None` on no boxes |
| Day08Fast.SolversAgree | src/bin/08.rs:44-59 | the cable at which the plain solution completes one circuit has the length of the edge the fast solution records |
| Day09.Unzip | src/bin/09.rs:37-50 | the two columns of points, position by position |
| Day09.ParsePoints | src/bin/09.rs:36-51 | one point per line of the input, `None` when a line panics |
| Day09.CollectPoints | src/bin/09.rs:40-45 | the points of the lines, in order |
| Day09.ParsePointRoundTrip | src/bin/09.rs:41-44 | `x,y` with `i32` coordinates parses back to `(x, y)` |
| Day09.ParseInputRoundTrip | src/bin/09.rs:36-51 | points written one per line parse back to the same points |
| Day09.UnzipZip | src/bin/09.rs:31-34 | pairing the columns and splitting them again gives them back |
| Day09.Area | src/bin/09.rs:63-66 | a rectangle spanned by two red tiles covers at least one tile |
| Day09.SolvePartOne | src/bin/09.rs:55-71 | the answer is the largest area over all pairs of points, and 0 with fewer than two |
| Day09.PartOne | src/bin/09.rs:13-18 | `None` exactly when parsing panics, otherwise the largest area |
| Day09.MinIndex | src/bin/09.rs:91 | the peeked candidate is least in the heap's order (by area, then indices) |
| Day09.HeapSize | src/bin/09.rs:80-98 | the heap ends with `min(MAX_CANDIDATES, pairs)` candidates |
| Day09.HeapOrigin | src/bin/09.rs:80-98 | every candidate in the heap was offered |
| Day09.OfferNew | src/bin/09.rs:89-96 | an offered candidate is kept, or the heap is full of candidates with at least its area |
| Day09.OfferOld | src/bin/09.rs:89-96 | a candidate already kept stays, or is pushed out by a full heap of candidates with at least its area |
| Day09.OfferAbove | src/bin/09.rs:91-95 | once the heap is full of areas at least `a`, it stays so |
| Day09.Retention | src/bin/09.rs:80-98 | every pair offered is in the final heap or the heap is full of candidates with at least its area: the heap keeps the largest areas |
| Day09.SmallHeapKeepsAll | src/bin/09.rs:89-90 | with at most `MAX_CANDIDATES` pairs the heap keeps all of them |
| Day09.BestAreaBound | src/bin/09.rs:106-128 | an accepted candidate's area is at most the best accepted area |
| Day09.BestAreaAttained | src/bin/09.rs:106-128 | a positive best accepted area is the area of an accepted candidate |
| Day09.BestAreaPermutation | src/bin/09.rs:101 | draining the heap in any order does not change the best accepted area |
| Day09.HeapBest | src/bin/09.rs:5-9 | the heap's best accepted area is 0 or the best over all pairs, as the comment on `MAX_CANDIDATES` promises |
| Day09.Pairs | src/bin/09.rs:83-84 | the pairs `i < j` in loop order, each with its area |
| Day09.PairListed | src/bin/09.rs:83-84 | every pair `i < j` is offered |
| Day09.OfferAllSnoc | src/bin/09.rs:83-98 | offering one more candidate is one more heap step |
| Day09.OfferCandidate | src/bin/09.rs:89-96 | one heap step, which grows the heap by one until it is full |
| Day09.OfferRow | src/bin/09.rs:84-97 | the inner loop offers row `i` of the pairs in order |
| Day09.CollectCandidates | src/bin/09.rs:80-98 | the heap after offering every pair in loop order |
| Day09.HeapGenuine | src/bin/09.rs:101-104 | every drained candidate is a pair `i < j` of points with its own area |
| Day09.FirstAcceptedBest | src/bin/09.rs:104-125 | in candidates sorted by decreasing area the first accepted one has the best accepted area |
| Day09.VerdictAgrees | src/bin/09.rs:110-125 | where the interior test does not panic a candidate is taken exactly when its midpoint is inside and no edge crosses its interior; a panic needs a candidate of zero width or height whose midpoint is inside |
| Day09.ScanFromBest | src/bin/09.rs:104-128 | a scan of candidates sorted by decreasing area that does not panic returns the best accepted area |
| Day09.ScanFromPanics | src/bin/09.rs:106-125 | a scan that panics reaches a candidate whose interior test panics, after every earlier candidate is rejected as written |
| Day09.ScanCandidates | src/bin/09.rs:106-128 | the area of the first candidate taken, 0 when none is, `None` when the interior test panics first |
| Day09.Ranked | src/bin/09.rs:101-104 | the drained heap is a permutation of the kept candidates, sorted by decreasing area, each a genuine pair |
| Day09.SolvePartTwo | src/bin/09.rs:75-129 | the scan of the kept candidates in sorted order, including its panic |
| Day09.PartTwoScan | src/bin/09.rs:75-129 | without a panic the answer is the best accepted area among the kept candidates; a panic needs a zero-width or zero-height candidate with its midpoint inside |
| Day09.PartTwoBest | src/bin/09.rs:75-129 | the answer is 0 or the best accepted area over all pairs, and exactly the latter when there are at most `MAX_CANDIDATES` pairs |
| Day09.BestOverPairs | src/bin/09.rs:106-125 | every accepted rectangle is at most as large as the best over all pairs |
| Day09.PartTwo | src/bin/09.rs:20-26 | `None` when parsing panics or the scan panics; otherwise the best accepted area among the kept candidates |
| Day09Polygon.Side | src/bin/09.rs:154-165 | the side from point `i` to the next, with `min <= max` |
| Day09Polygon.BuildEdges | src/bin/09.rs:147-175 | the sides split into vertical and horizontal lists, each sorted by `at` |
| Day09Polygon.OneEdgePerSide | src/bin/09.rs:153-166 | each side goes into exactly one of the two lists |
| Day09Polygon.SideListed | src/bin/09.rs:159-165 | a side with equal x is listed as vertical, any other as horizontal |
| Day09Polygon.BuildFacts | src/bin/09.rs:147-175 | both lists sorted by `at`, `n` sides in all, each with `min <= max` |
| Day09Polygon.SideInBuild | src/bin/09.rs:153-175 | every side of the polygon is in the built lists |
| Day09Polygon.ElementBounds | src/bin/09.rs:168-169 | sorting keeps `min <= max` of every edge |
| Day09Polygon.Crossings | src/bin/09.rs:183-199 | the number of vertical edges to the right of the point whose open span holds its y |
| Day09Polygon.IsPointInPolygon | src/bin/09.rs:180-202 | inside exactly when the ray to the right crosses an odd number of vertical edges |
| Day09Polygon.CrossingsAppend | src/bin/09.rs:183-199 | crossings add up over consecutive edge lists, so the order of the scan does not matter |
| Day09Polygon.RightOfAllOutside | src/bin/09.rs:188-190 | a point to the right of every vertical edge is outside |
| Day09Polygon.Prefix | src/bin/09.rs:210-211 | `partition_point`: the length of the leading run of edges below the bound |
| Day09Polygon.PrefixSorted | src/bin/09.rs:210-211 | on sorted edges, index `k` lies in that run exactly when its edge is below the bound |
| Day09Polygon.RangeSelects | src/bin/09.rs:210-216 | the slice between the two `partition_point`s holds exactly the edges strictly between the bounds |
| Day09Polygon.InteriorHitExact | src/bin/09.rs:205-230 | the scans report a hit exactly when some edge crosses the rectangle's interior |
| Day09Polygon.EdgesIntersectInterior | src/bin/09.rs:205-230 | the code as written: `None` where a slice's start passes its end, otherwise whether an edge in either selected slice overlaps the open span |
| Day09Polygon.AsWrittenAgrees | src/bin/09.rs:210-227 | where the code as written does not panic it agrees with the corrected reading, and it panics only on a rectangle of zero width or height |
| Day09Polygon.PrefixBoundsOrdered | src/bin/09.rs:210-211 | on sorted edges a smaller bound gives a shorter run, so a proper rectangle never slices backwards |
| Day09Polygon.ZeroWidthPanics | src/bin/09.rs:210-213 | the rectangle `x = 5, y = 0..10` next to a vertical edge at `x = 5` slices `[1..0]` and panics |
| Day10.ShiftInBit | src/bin/10.rs:84 | after shifting `acc` left by one and or-ing in `b` on a `u16`, bit 0 is `b` and bit `k` is the old bit `k - 1`, below 16 |
| Day10.PatternBits | src/bin/10.rs:81-84 | light bit `k` is set exactly when the `k`-th character from the right of the pattern is `#`, for the low 16 bits |
| Day10.MaskMeaning | src/bin/10.rs:88-91 | the mask exists exactly when every index is below the pattern length and 16, and then bit `plen - 1 - i` is set exactly when `i` is listed |
| Day10.FoldMaskParsed | src/bin/10.rs:88-91 | folding the pieces is parsing them all and then building the mask |
| Day10.ButtonOfMeaning | src/bin/10.rs:87-93 | a button token is its bracketed list of indices turned into a mask |
| Day10.FoldMaskPrefix | src/bin/10.rs:88-91 | a piece that panics makes the whole button panic |
| Day10.ParseButton | src/bin/10.rs:87-93 | the mask of one button token, `None` where it panics |
| Day10.FoldPieces | src/bin/10.rs:88-91 | the fold over the pieces, `None` at the first that panics |
| Day10.ButtonsEnd | src/bin/10.rs:86-94 | the index of the first token that is not a button, after a run of buttons |
| Day10.ButtonsEndAfter | src/bin/10.rs:86-87 | a run of button tokens is passed entirely |
| Day10.ParseMachineLine | src/bin/10.rs:75-110 | the machine of one line, `None` where it panics |
| Day10.ParseTokens | src/bin/10.rs:78-109 | the pattern, then the buttons up to the first non-button token, which is the joltage list; `None` without one (`unreachable!`) |
| Day10.CollectButtons | src/bin/10.rs:86-94 | the masks of the leading run of button tokens, stopping at the first other token |
| Day10.PushButton | src/bin/10.rs:87-93 | one more button token extends the masks by its own |
| Day10.ButtonsStop | src/bin/10.rs:94 | the loop stops at the first non-button token, with the masks of all before it |
| Day10.ButtonFails | src/bin/10.rs:89 | a button that panics makes the whole line panic |
| Day10.ButtonsEndIs | src/bin/10.rs:86-94 | the first non-button token after a run of buttons is where the run ends |
| Day10.MachineOfEnd | src/bin/10.rs:78-109 | the machine is the pattern, the buttons before the first non-button token and that token's joltages, or a panic |
| Day10.ButtonsStep | src/bin/10.rs:86-93 | the masks of `k + 1` tokens are those of `k` and one more, or a panic |
| Day10.ButtonsPrefixFails | src/bin/10.rs:89 | one bad button token makes the masks of any run holding it panic |
| Day10Lights.PathLights | src/bin/10.rs:12-18 | a path of the search ends in the lights of its presses and has one more state than presses |
| Day10Lights.LightsParity | src/bin/10.rs:14 | a light is on exactly when an odd number of presses flipped it |
| Day10Lights.FlipsWithout | src/bin/10.rs:14 | removing one press removes exactly its flips |
| Day10Lights.PairCancels | src/bin/10.rs:14 | two presses of the same button cancel |
| Day10Lights.DistinctBound | src/bin/10.rs:14 | presses of distinct buttons number at most the buttons |
| Day10Lights.Shorten | src/bin/10.rs:12-16 | any presses can be shortened to distinct presses that light the same state |
| Day10Lights.FewestAtMostButtons | src/bin/10.rs:12-18 | the fewest presses for a reachable pattern are at most the number of buttons |
| Day10Lights.PartOne | src/bin/10.rs:8-22 | the sum of the search's answers per machine, `None` when one has no path (the `unwrap` panics) |
| Day10Lights.PartOneBound | src/bin/10.rs:8-22 | with a trusted search the answer is at most the total number of buttons |
| Day10Joltage.Rows | src/bin/10.rs:45-56 | one equation per joltage, in order |
| Day10Joltage.BuildConstraints | src/bin/10.rs:45-56 | row `i` lists the buttons whose mask has bit `n_joltages - 1 - i`, equal to `joltage[i]`; `None` where the shift overflows the `u16` |
| Day10Joltage.PressingMeaning | src/bin/10.rs:48-52 | the buttons listed are exactly those whose mask has the bit, in increasing order |
| Day10Joltage.PressingCounter | src/bin/10.rs:48-52 | the listed press counts add up to the presses that touch the counter |
| Day10Joltage.ConstraintsMeaning | src/bin/10.rs:42-56 | a press count vector satisfies the system exactly when every counter ends at its joltage |
| Day10Joltage.ButtonTouches | src/bin/10.rs:88-90 | a button's mask has bit `n_joltages - 1 - i` exactly when its token lists `i`, when the pattern is as long as the joltage list |
| Day10Joltage.SumAllSome | src/bin/10.rs:58-61 | the answer exists exactly when every machine's term does |
| Day10Joltage.PartTwo | src/bin/10.rs:24-65 | the sum over the machines of the solver's totals, `None` at the first that panics |
| Day10Joltage.SumAllPrefix | src/bin/10.rs:58 | a panic in one machine is a panic of the whole |
| Day10Joltage.PartTwoLeast | src/bin/10.rs:31-61 | with a trusted solver the answer is at most the total of any way of solving all machines |
| Day11.OrBelow | src/bin/11.rs:66 | or-ing two values below `2^k` stays below `2^k`, so an id stays a `u16` |
| Day11.OrDisjoint | src/bin/11.rs:66 | or-ing a small value into a multiple of `2^k` is addition |
| Day11.IdRecursiveSnoc | src/bin/11.rs:64-69 | the front-to-back fold read from the back: one more letter shifts the id by 5 bits and ors the letter in |
| Day11.NodeIdSnoc | src/bin/11.rs:63-72 | the empty name has id 0, and appending a letter extends the id as above |
| Day11.IdRecursiveBelow | src/bin/11.rs:66 | the fold always yields a `u16` |
| Day11.NodeIdLowercase | src/bin/11.rs:63-72 | for up to three lower-case letters the id is their base-32 value, with no bit lost |
| Day11.ShiftInLetter | src/bin/11.rs:66 | for short names the shift and or are `32 v + d` without overflow |
| Day11.Base32Injective | src/bin/11.rs:63-72 | two lower-case names of equal length have the same base-32 value exactly when they are equal |
| Day11.NodeIdInjective | src/bin/11.rs:63-72 | three-letter lower-case names get distinct ids below `2^15`, so the `u16` map never merges two devices |
| Day11.ConstantIds | src/bin/11.rs:9-14 | the ids of `you`, `out`, `svr`, `dac` and `fft` are the constants used |
| Day11.ThreeLetters | src/bin/11.rs:63-72 | the id of `abc` is `1024 a + 32 b + c` in letter values |
| Day11.InsertionsKeys | src/bin/11.rs:39-46 | a device is a key of the map exactly when some line names it first |
| Day11.InsertionsLastWins | src/bin/11.rs:45 | a device maps to the outputs of its last line |
| Day11.ParseLines | src/bin/11.rs:39-46 | the loop builds the map of the parsed lines, `None` at a line that panics |
| Day11.PartTwo | src/bin/11.rs:22-32 | the paths through `dac` then `fft` plus those through `fft` then `dac`, whenever no `u64` product or sum overflows |
| Day11.PartTwoDefined | src/bin/11.rs:26-31 | the answer exists exactly when no intermediate product and not the sum exceeds `u64::MAX` |
| Day11.PartTwoSymmetric | src/bin/11.rs:25-31 | exchanging the roles of `dac` and `fft` gives the same answer |
| Day12.CheckedAreaMeaning | src/bin/12.rs:20-23 | the shape area exists exactly when no `count * area` product and no partial sum overflows a `u32`, and then it is the sum of the products |
| Day12.CanFitMeaning | src/bin/12.rs:18-26 | `can_fit` panics exactly on a `u32` overflow of the region area or the shape area, and otherwise says whether the region area is at least the shape area (over the shorter of the two lists, as `zip` does) |
| Day12.ParseLines | src/bin/12.rs:41-78 | the loop reads the lines one by one as the line-by-line reader describes, closing the last shape at the end |
| Day12.RunPrefixFails | src/bin/12.rs:48-59 | a line that panics makes the whole parse panic |
| Day12.RunShapesPositive | src/bin/12.rs:62-78 | only shapes with a positive area are kept |
| Day12.ShapesPositive | src/bin/12.rs:36-81 | every shape area returned is positive |
| Day12.RunRegions | src/bin/12.rs:46-61 | the regions are those of the lines containing an `x`, in order |
| Day12.RunHashes | src/bin/12.rs:62-72 | the kept shapes and the open one hold every `#` of the shape rows |
| Day12.ShapeAreasTotal | src/bin/12.rs:36-81 | the shape areas add up to the number of `#`s on the shape rows |
| Day12.CountFittingMeaning | src/bin/12.rs:5 | the count exists exactly when no region panics, and is the number of fitting regions |
| Day12.FittingStep | src/bin/12.rs:5 | one more region adds itself to the fitting ones exactly when it fits |
| Day12.PartOneBound | src/bin/12.rs:3-8 | the answer is at most the number of regions |
| Day12.FittingBound | src/bin/12.rs:5 | at most `n` of the first `n` regions fit |
| Day12.PartTwo | src/bin/12.rs:10-12 | part two has no answer for any input |

## Left out

- Integer widths of sums and products: the `u64` totals of days 1, 2, 3, 5, 6 and 7, the product of the three largest circuits of day 8 and the `i64` squared distances of day 8 are unbounded here; a release build would wrap where a debug build panics, and no realistic puzzle input reaches either. The same holds for the other arithmetic whose width the model leaves out:
  - `parse_i64_fast`'s `num * 10 + d` (src/bin/08_fast.rs:231-236), which overflows `i64` on a run of digits whose value exceeds `i64::MAX`;
  - the `i64` dial arithmetic of day 1 (`state + delta`, `steps.abs()`, src/bin/01.rs:33-61);
  - `repeat_block`'s `u64` fold (src/bin/02.rs:98-105), whose `block *= block_multiplier` runs once more after the last block is added and so can overflow near `u64::MAX` even where the result fits;
  - the area `dx * dy` of day 9, which reaches `2^64` at the extreme `i32` coordinates.

  The widths that are modelled are the `u16` node ids of day 11, the `u16` light and button masks of day 10, the `u32` areas of day 12, the `u64` checks of day 11, `parse::<u64>` and `parse::<i32>`. The `u16` positions and `i16` stride of day 4 are not (see `Day04.PartTwo` below).
- Day04.PartTwo: positions are unbounded `nat`s and the stride is `line_length + 2`, where the source stores positions as `u16` (`roles.len() as u16`, src/bin/04.rs:112), casts the stride with `line_length as i16` (src/bin/04.rs:64) and indexes with `wrapping_add_signed` (src/bin/04.rs:137). A padded grid of more than 65536 cells or a row of more than 32765 bytes makes the source read other cells than the model; the same holds for `Day04.CreatePaddedGrid`, `Day04.IsRemovable` and `Day04.Removals`.
- Day09.PartTwo: the order among candidates of equal area is the one `Day09.Ranked` fixes (the heap's sequence order, then `Sorting.SortBy`), where the source drains a `BinaryHeap` and calls `sort_unstable_by` (src/bin/09.rs:101-104), whose order among ties is unspecified. Whether a zero-width or zero-height candidate panics before an accepted one of the same area can depend on that order; `Day09.ScanFromBest` and `Day09.ScanFromPanics` hold for every sorted order.
- The `i32` arithmetic of day 9 (`x1 + x2`, `edge.at * 2`) is unbounded here: coordinates near `i32::MAX` would overflow in Rust.
- Text is ASCII: a `char` stands for one byte, and `str::lines` is modelled for `'\n'` endings only (a `"\r\n"` ending is not stripped of its `'\r'`).
- Sorting.SortBy: stands for `sort_unstable` and `sort_unstable_by_key`, and returns the one order that keeps equal keys in input order. Where ties matter (two cables of the same length in day 8 part two), the model fixes one of the orders the library may produce.
- The internals of `BinaryHeap` and `select_nth_unstable_by` are not modelled: a heap is a sequence with the same push, peek and pop behaviour, and the three largest sizes are read off a sorted copy.
- Day08.PartOne: takes `CONNECTIONS` as a parameter, because the source sets it to 10 under `cfg(test)` and to 1000 otherwise; likewise `Day08Fast.PartOne`.
- Day08Fast.SolversAgree: relates the two day 8 solvers through the bottleneck length only. When that length is 0 (all boxes at one point) the fast solver answers 0 while the first multiplies two x coordinates, and with a single box the first answers `None` and the fast one reads `min_dists[0]` of a one-element vector and answers `Some(0)`.
- Day08Fast.PartTwo: answers `None` on an input with no boxes, where the source writes `min_dists[0]` of an empty vector in an `unsafe` block (undefined behaviour).
- Day05.DisjointRangesCorrect: stated for inputs whose ranges are all non-empty; `Day05.EmptyRangeBreaksDisjointness` shows that a range with `start > end` can leave the output overlapping, and part two's `end - start + 1` then underflows.
- Day10Lights.PartOne: takes the answer of the `pathfinding` breadth-first search for each machine as a parameter, because the search is library code; `IsFewestPresses` states what that answer must be.
- Day10Joltage.PartTwo: takes the `good_lp` solver's solution for each machine as a parameter, because the solver is library code; `SolverAnswer` states what it must be, and the `f64` sum and `round()` are taken to give the exact integer total.
- Day10Joltage.ButtonTouches: relates button indices to joltage counters only when the pattern is as long as the joltage list, which the puzzle input guarantees and the source assumes.
- Day 11 `part_one` and `n_paths` are `count_paths` of the `pathfinding` library: `Day11.PartTwo` takes the path counts as a parameter, and `part_one` (`Some` of one such count) is not modelled further.
- The `#[cfg(test)]` example tests are not stated, because their example input files are not part of this model.

## Findings

| source | as written | input that shows it | evidently intended | confidence | as-written member | corrected member |
|---|---|---|---|---|---|---|
| src/bin/04.rs:18-22 | the centre windows come from the text with one `'\n'` in front, so there is one window fewer than there are bytes and the last byte is never a centre | `"@\n@"` (no final newline): both rolls have one neighbour, `part_one` counts 1 | every byte is a centre, so the answer is 2 | not executed; a text ending in `'\n'` is unaffected | Day04.LastRollMissed | Day04.AccessibleRollsCountsGrid |
| src/bin/09.rs:210-213 | `vertical[v_start..v_end]` panics when `v_start > v_end`, which happens for a rectangle of zero width lying on a vertical edge (likewise for height at lines 220-223); part two reaches it when such a candidate, with its midpoint inside, comes before the first accepted one, and then answers `None` (`Day09.ScanFromPanics`, `Day09.PartTwo`) | two red tiles at `(5, 0)` and `(5, 10)` with a vertical edge `x = 5` from 0 to 10: `v_start = 1`, `v_end = 0` | an empty selection, so no edge crosses the empty interior | not executed | Day09Polygon.ZeroWidthPanics | Day09Polygon.InteriorHitExact |

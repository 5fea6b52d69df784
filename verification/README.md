# Advent of Code 2024, days 1 to 15, in Dafny

This project models the puzzle solvers of a Rust workspace: one crate per day,
each with a `process_part1` and `process_part2` that take the puzzle text and
return the answer. Each day is one Dafny module, or a few for the larger days.
Its operations are pure functions over immutable data. For each part, the
module proves what the solver computes against a reference definition that is
written independently of the solver's loops. The exceptions are listed under
"Left out".

A Rust panic becomes `None` wherever the input data can cause it: a failed
`unwrap`, `expect` or `assert!`, indexing out of bounds, `usize` underflow,
division by zero. A few panics are programmer-error asserts that no parsed
input reaches; those become `requires` clauses. Integers are unbounded. The
fixed-width arithmetic of the source is written out only where the solver
depends on it (the truncating remainder and the `as u32` cast in day 14).

Shared modules:
- `Wrappers` holds `Option`.
- `TextLines` holds `split`, `lines`, joining and `to_digit`.
- `Decimal` holds powers of ten and digit counts.

The days:

| day | module(s) | puzzle |
|---|---|---|
| 1 | `LocationLists` | sorted pairwise distance and similarity of two id lists |
| 2 | `RedNosedReports` | safe reports, with and without the problem dampener |
| 3 | `MulScanner` | the `mul(x,y)` scanner, with `do()`/`don't()` regions |
| 4 | `WordSearch` | `XMAS` along every line and the `X-MAS` crosses |
| 5 | `PrintQueue` | page-ordering rules and the repair of updates |
| 6 | `GuardPatrol` | the guard's walk, and obstructions that trap her in a loop |
| 7 | `BridgeRepair` | equations solvable with `+`, `*` and `\|\|` |
| 8 | `Antennas` | antinodes of antenna pairs, and resonant lines |
| 9 | `DiskMap` | block-wise and file-wise disk compaction |
| 10 | `TrailMap` | trailhead scores and ratings by depth-first search |
| 11 | `Stones` | stone blinking, by list and by count map |
| 12 | `GardenForest`, `GardenFences`, `GardenSides`, `GardenScan`, `GardenPrice` | garden regions by union-find, priced by perimeter and by sides |
| 13 | `ClawMachine` | claw machines solved with Cramer's rule |
| 14 | `RestroomRobots` | robots walking on a torus, quadrants, the Christmas-tree time |
| 15 | `WarehouseGrid`, `Warehouse`, `WideWarehouse` | the robot pushing boxes, narrow and wide |

## Model

| member | source | states |
|---|---|---|
| LocationLists.Unzip | day-01/src/lib.rs:36-45 | the two columns hold, line by line, the left and right ids of the input lines |
| LocationLists.Sort | day-01/src/lib.rs:13-14 | the sorted list is an ascending permutation of the input |
| LocationLists.SortedUnique | day-01/src/lib.rs:13-14 | two ascending lists with the same elements are equal, so the sort is canonical |
| LocationLists.SortCanonical | day-01/src/lib.rs:13-14 | lists with the same elements sort to the same list |
| LocationLists.Distance | day-01/src/lib.rs:18 | `abs_diff` is zero exactly for equal ids and bridges the gap between them in either direction |
| LocationLists.DistanceSumZero | day-01/src/lib.rs:15-19 | the summed distances of equal-length lists are zero exactly when the lists are equal |
| LocationLists.Part1Permutation | day-01/src/lib.rs:10-21 | part 1 depends only on the multiset of ids in each column |
| LocationLists.Part1Zero | day-01/src/lib.rs:10-21 | part 1 is zero exactly when both columns hold the same ids with the same multiplicities |
| LocationLists.SumOfCount | day-01/src/lib.rs:26-29 | an id's contribution is the id times the number of its occurrences in the right column, as `counts` gives |
| LocationLists.SimilaritySymmetric | day-01/src/lib.rs:23-32 | the similarity score does not change when the columns are swapped |
| LocationLists.SimilarityPermutation | day-01/src/lib.rs:23-32 | the similarity score depends only on the multiset of ids in each column |
| RedNosedReports.Cmp | day-02/src/lib.rs:24 | `cmp` returns `Less` exactly when the first level is smaller, and `Equal` exactly for equal levels |
| RedNosedReports.IsSafe | day-02/src/lib.rs:9-33 | `is_safe` panics exactly on reports with fewer than two levels |
| RedNosedReports.IsSafeCorrect | day-02/src/lib.rs:9-33 | when it answers, `is_safe` decides the reference predicate: strictly monotone, with steps of 1 to 3 |
| RedNosedReports.EqualNeighboursUnsafe | day-02/src/lib.rs:20-28 | a report with two equal neighbours is never safe |
| RedNosedReports.Remove | day-02/src/lib.rs:45-48 | dropping level `i` keeps the levels before it and shifts the ones after it down by one |
| RedNosedReports.SkipAnyCorrect | day-02/src/lib.rs:39-51 | `skip_any` succeeds exactly when the report is safe with some single level removed; it panics on one or two levels |
| RedNosedReports.ToleratedCorrect | day-02/src/lib.rs:71 | the part-2 filter accepts safe reports, panics on reports of fewer than two levels and on unsafe two-level reports, and otherwise accepts a report that is safe after removing one level |
| RedNosedReports.Part1Counts | day-02/src/lib.rs:56-64 | part 1 panics exactly when some report is shorter than two levels, and otherwise counts the safe reports |
| RedNosedReports.Part2Panics | day-02/src/lib.rs:66-74 | part 2 panics exactly when some report jams the dampener |
| RedNosedReports.Part2Counts | day-02/src/lib.rs:66-74 | when part 2 answers, it counts the reports that are safe or safe after removing one level |
| RedNosedReports.Part1WithinPart2 | day-02/src/lib.rs:56-74 | part 1 answers whenever part 2 does, with an answer no larger |
| MulScanner.DigitRun | day-03/src/lib.rs:50 | the leading run of digits is all digits and is followed by a non-digit or the end |
| MulScanner.ParseU32 | day-03/src/lib.rs:50-52 | a parsed `u32` is a non-empty run of digits whose value fits in 32 bits |
| MulScanner.ParseU32Digits | day-03/src/lib.rs:50-52 | a numeral that fits in 32 bits is read back with its value and length |
| MulScanner.ParseMul | day-03/src/lib.rs:48-55 | an accepted instruction starts with `mul(`, has operands below 2^32, and holds no `d` |
| MulScanner.ParseMulText | day-03/src/lib.rs:48-55 | `parse_mul` reads back every instruction `mul(x,y)` written with numerals that fit |
| MulScanner.ParseMulShape | day-03/src/lib.rs:48-55 | whatever `parse_mul` accepts is `mul(`, a numeral, `,`, a numeral and `)` |
| MulScanner.Find | day-03/src/lib.rs:41 | `take_until` finds the first occurrence of the pattern and no earlier one |
| MulScanner.ParseDont | day-03/src/lib.rs:37-46 | an accepted disabled region starts with `don't()` and consumes more than that |
| MulScanner.ParseDontSpan | day-03/src/lib.rs:41 | a disabled region ends at the first `do()` after `don't()` |
| MulScanner.ParseDontToEnd | day-03/src/lib.rs:42 | without a later `do()` a disabled region runs to the end of the input |
| MulScanner.ParseInput | day-03/src/lib.rs:25-29 | part 1's scanner fails only on the empty input |
| MulScanner.ParseInput2 | day-03/src/lib.rs:31-35 | part 2's scanner fails only on the empty input |
| MulScanner.ScanMul | day-03/src/lib.rs:26 | an instruction in the text is found, and scanning resumes after it |
| MulScanner.ScanDisabled | day-03/src/lib.rs:32 | part 2 skips everything between `don't()` and the next `do()` |
| MulScanner.ScanDisabledToEnd | day-03/src/lib.rs:32 | a `don't()` with no `do()` after it disables the rest of the input |
| MulScanner.ScanShowAll | day-03/src/lib.rs:25-29 | scanning a text written as a list of instructions finds exactly that list, in order |
| MulScanner.Scan2Within | day-03/src/lib.rs:25-35 | every instruction part 2 finds, part 1 finds too, in the same order |
| MulScanner.Part2WithinPart1 | day-03/src/lib.rs:11-23 | both parts fail exactly on the empty input, and part 2's sum never exceeds part 1's |
| WordSearch.ParseInput | day-04/src/lib.rs:67-81 | the table is the text split at newlines; joining it gives back the text; it has one row more than the text has newlines |
| WordSearch.Read | day-04/src/lib.rs:7-43 | reading a line of cells panics exactly when a cell is off the grid, and otherwise yields the characters under the cells |
| WordSearch.Text | day-04/src/lib.rs:7-43 | the search string exists exactly when every line stays on the grid, and it ends with a space |
| WordSearch.Reverse | day-04/src/lib.rs:44-45 | the reversed string holds character `i` at position `n - 1 - i` |
| WordSearch.MatchesXmas | day-04/src/lib.rs:47 | since `XMAS` cannot overlap itself, `matches` counts every occurrence |
| WordSearch.OccReverse | day-04/src/lib.rs:44-47 | a reversed text holds the reversed pattern as often as the text holds the pattern |
| WordSearch.OccConcat | day-04/src/lib.rs:7-43 | occurrences never cross the space that ends each line |
| WordSearch.Part1Lines | day-04/src/lib.rs:1-48 | part 1 counts `XMAS` forwards and backwards along every line, and panics exactly when a line leaves the grid |
| WordSearch.AntiDiagonalCells | day-04/src/lib.rs:16-30 | each rising diagonal holds exactly the cells with one coordinate sum, consecutive along its direction |
| WordSearch.DiagonalCells | day-04/src/lib.rs:31-43 | each falling diagonal holds exactly the cells with one coordinate difference, consecutive along its direction |
| WordSearch.SquareLinesAll | day-04/src/lib.rs:7-43 | on a square grid part 1 walks every row, column and diagonal once, all on the grid |
| WordSearch.Part1Square | day-04/src/lib.rs:1-48 | on a square grid part 1 answers with the occurrences of `XMAS` both ways along every row, column and diagonal |
| WordSearch.Part1NotSquare | day-04/src/lib.rs:12-43 | on a rectangular grid that is not square a diagonal leaves the grid, so part 1 panics |
| WordSearch.At | day-04/src/lib.rs:56-62 | a cell read panics exactly off the grid and otherwise gives the character there |
| WordSearch.CrossXMas | day-04/src/lib.rs:56-62 | on an inner cell the filters never panic and accept exactly the centres of two crossing `MAS` |
| WordSearch.Part2Rectangular | day-04/src/lib.rs:50-65 | on a rectangular grid part 2 counts the centres of crossing `MAS` strictly inside it, and panics only on an empty first row |
| PrintQueue.RuleMapSpec | day-05/src/lib.rs:13-21 | page `b` is listed under page `a` exactly when there is a rule `b\|a` |
| PrintQueue.OrderedSpec | day-05/src/lib.rs:84-95 | `is_correctly_ordered` holds exactly when no page comes after a page that a rule says must follow it |
| PrintQueue.IndexOf | day-05/src/lib.rs:74-75 | `position` finds the first occurrence of a page, and fails exactly when the page is absent |
| PrintQueue.FindRule | day-05/src/lib.rs:71-82 | `find_rule` reports the two first positions exactly when both pages occur and the rule is broken |
| PrintQueue.Swap | day-05/src/lib.rs:56 | a swap keeps the length and the multiset of pages |
| PrintQueue.Pass | day-05/src/lib.rs:53-59 | one pass over the rules permutes the pages, and a pass without a swap changes nothing |
| PrintQueue.PassFixed | day-05/src/lib.rs:52-63 | after a pass without a swap no rule applies |
| PrintQueue.Repair | day-05/src/lib.rs:51-65 | a repaired update has the same length and holds the same pages, repeats included |
| PrintQueue.RepairSpec | day-05/src/lib.rs:51-65 | no rule applies to a repaired update |
| PrintQueue.FindRuleDistinct | day-05/src/lib.rs:71-82 | in an update of distinct pages, a later page before an earlier one is a broken rule found at their positions |
| PrintQueue.RepairOrdered | day-05/src/lib.rs:35-68 | a repaired update of distinct pages is correctly ordered |
| PrintQueue.Part1Follows | day-05/src/lib.rs:10-33 | part 1 adds up the middle pages of exactly the updates that follow every rule |
| PrintQueue.Part2Follows | day-05/src/lib.rs:35-68 | part 2 adds up the middle pages of the repaired updates that broke some rule |
| GuardPatrol.TurnClockwise | day-06/src/lib.rs:178-185 | a turn is a quarter turn clockwise, so four turns change nothing |
| GuardPatrol.Ahead | day-06/src/lib.rs:19-48 | the cell ahead exists exactly when stepping forward stays on the lab, and it is one step in the guard's direction |
| GuardPatrol.Step | day-06/src/lib.rs:19-54 | one pass leaves the lab exactly when nothing is ahead; otherwise the guard steps onto a path or turns in place before an obstruction |
| GuardPatrol.AfterAdd | day-06/src/lib.rs:17-55 | walking `a` steps and then `m` more is walking `a + m` |
| GuardPatrol.RepeatForever | day-06/src/lib.rs:85-126 | a state met twice means the walk never ends |
| GuardPatrol.LoopsSpec | day-06/src/lib.rs:85-126 | the loop detection from step `k`, with the earlier states remembered, fires exactly when the walk never ends |
| GuardPatrol.LoopsForever | day-06/src/lib.rs:85-126 | the loop detection from a fresh start fires exactly when the walk never ends |
| GuardPatrol.PatrolSpec | day-06/src/lib.rs:17-55 | the patrol ends exactly when the walk does, and then holds the cells of every step up to the last |
| GuardPatrol.Part1Spec | day-06/src/lib.rs:11-58 | part 1 counts the distinct cells of the finite walk, between 1 and the lab's size; it fails only on a walk that never ends |
| GuardPatrol.Block | day-06/src/lib.rs:81-82 | the blocked lab has an obstruction at the candidate and is unchanged everywhere else |
| GuardPatrol.Candidates | day-06/src/lib.rs:75-78 | the candidates are exactly the path cells other than the guard's start, in reading order |
| GuardPatrol.CountLoopsSpec | day-06/src/lib.rs:85-126 | counting over candidates in reading order gives the number of candidates that trap the guard |
| GuardPatrol.Part2Spec | day-06/src/lib.rs:60-131 | part 2 counts exactly the cells whose obstruction makes the walk endless |
| GuardPatrol.ParseLocation | day-06/src/lib.rs:140-146 | a cell parses exactly from `.`, `#` or `^`, and is an obstruction exactly for `#` |
| GuardPatrol.ParseShowLocation | day-06/src/lib.rs:140-146 | every cell written out parses back to itself |
| GuardPatrol.Find | day-06/src/lib.rs:202-203 | `str::find` gives the first index of the character, and fails exactly when it is absent |
| GuardPatrol.ParseGuardSpec | day-06/src/lib.rs:201-207 | on a lab of equal rows the guard is found at the first `^` in reading order, facing up |
| BridgeRepair.Concatenate | day-07/src/lib.rs:77-80 | concatenation panics exactly when the right operand is 0 |
| BridgeRepair.ConcatenateSplit | day-07/src/lib.rs:77-80 | cutting the right operand's digit count off a concatenation gives back both operands |
| BridgeRepair.ConcatenateDigits | day-07/src/lib.rs:77-80 | in decimal, a concatenation is the digits of the left operand followed by those of the right |
| BridgeRepair.ConcatenateExample | day-07/src/lib.rs:99-102 | `1234 \|\| 5678` is 12345678 |
| BridgeRepair.EvaluateSpec | day-07/src/lib.rs:54-62 | `evaluate` succeeds exactly when some choice of `+` and `*` reaches the target |
| BridgeRepair.Evaluate2Panics | day-07/src/lib.rs:64-75 | `evaluate2` panics exactly when a later operand is 0 |
| BridgeRepair.Evaluate2Spec | day-07/src/lib.rs:64-75 | `evaluate2`, when it does not panic, succeeds exactly when some choice of `+`, `*` and `\|\|` reaches the target |
| BridgeRepair.EvaluateImplies2 | day-07/src/lib.rs:54-75 | every equation solvable with `+` and `*` is solvable in part 2 as well |
| BridgeRepair.Part1Spec | day-07/src/lib.rs:9-22 | part 1 adds up the targets of the solvable equations |
| BridgeRepair.PartsSpec | day-07/src/lib.rs:24-37 | part 2 panics exactly when some equation has a later operand 0, and otherwise is at least part 1 |
| BridgeRepair.Part2Spec | day-07/src/lib.rs:24-37 | part 2, when it does not panic, adds up the targets of the equations that some choice of `+`, `*` and `\|\|` solves |
| Antennas.ParseSpec | day-08/src/lib.rs:108-124 | each frequency on the map maps to its antennas' positions, each once, in reading order; `.` is not a frequency |
| Antennas.Sub | day-08/src/lib.rs:22-34 | `checked_sub` fails exactly below zero and otherwise gives the difference |
| Antennas.Diff | day-08/src/lib.rs:19-20 | `abs_diff` is the distance between the two values |
| Antennas.PairAntinodesSpec | day-08/src/lib.rs:13-37 | a pair's candidates are exactly the points that mirror one antenna in the other, whichever antenna comes first |
| Antennas.GroupAntinodesSpec | day-08/src/lib.rs:12-40 | a point is a candidate of a frequency exactly when it mirrors one of its antennas in another |
| Antennas.AllAntinodesSpec | day-08/src/lib.rs:9-43 | the candidates of the map are exactly the antinodes of any frequency |
| Antennas.Part1Spec | day-08/src/lib.rs:5-45 | part 1 fails only on the empty input, and otherwise counts the antinodes inside the first line's width and the map's height, each once |
| Antennas.UpwardLength | day-08/src/lib.rs:75-77 | a walk up by `step_by` and `take_while` reaches exactly the strides that stay below the limit |
| Antennas.DownwardLength | day-08/src/lib.rs:79-81 | a walk down by `map_while` and `checked_sub` reaches exactly the strides that stay at or above zero |
| Antennas.Walk | day-08/src/lib.rs:61-101 | a pair's walk panics exactly when both antennas share a column, unless the column branch is reachable and they lie in different rows |
| Antennas.WalkSpec | day-08/src/lib.rs:61-101 | where it does not panic, a pair's walk visits exactly the points of the map on the pair's line |
| Antennas.OnLineSymmetric | day-08/src/lib.rs:55-60 | the line through `a` and `b` is the line through `b` and `a` |
| Antennas.PairLineSpec | day-08/src/lib.rs:54-101 | for two antennas on the map the walk fails exactly in one column, and otherwise visits the map's points on their line |
| Antennas.AllLinesPanics | day-08/src/lib.rs:52-103 | the walks panic exactly when two antennas of one frequency share a column and the column branch is not reached |
| Antennas.AllLinesVisits | day-08/src/lib.rs:52-104 | where no walk panics, the walks of a rectangular map visit exactly its resonant points |
| Antennas.Part2Spec | day-08/src/lib.rs:47-106 | part 2 fails exactly on the empty input or a frequency with two antennas in one column; on a rectangular map it counts the resonant points, each once |
| Antennas.Part2FixedSpec | day-08/src/lib.rs:64-71 | with the column branch reachable, part 2 fails only on the empty input and counts the resonant points of a rectangular map |
| Antennas.StackedPanics | day-08/src/lib.rs:63-64 | on two antennas stacked in one column the source's part 2 panics, while the corrected part 2 counts both |
| DiskMap.Layout | day-09/src/lib.rs:45-68 | the layout exists exactly for a text of digits; it has one block per unit of the map, and each file and free span is its digit's run |
| DiskMap.LayoutFiles | day-09/src/lib.rs:53-57 | every block of file `k`'s run holds file `k` |
| DiskMap.LayoutFree | day-09/src/lib.rs:60-64 | every block of a free run is free |
| DiskMap.LayoutSeparate | day-09/src/lib.rs:45-68 | the free spans and files share no block and lie on the disk |
| DiskMap.ParseInput | day-09/src/lib.rs:45-71 | `parse_input` succeeds exactly on a digit text whose last block belongs to a file, and then gives the layout |
| DiskMap.SwapRemove | day-09/src/lib.rs:9 | `swap_remove` moves the last block into place `i` and keeps every other block before the end |
| DiskMap.CompactSpec | day-09/src/lib.rs:3-13 | compaction leaves no free block, keeps the multiset of file blocks, and keeps every file block that still fits in place |
| DiskMap.Checksum | day-09/src/lib.rs:14-21 | the checksum panics exactly when a free block remains |
| DiskMap.Part1Answers | day-09/src/lib.rs:1-23 | part 1 never reaches its panic: it answers exactly for the maps `parse_input` accepts |
| DiskMap.FirstFit | day-09/src/lib.rs:28-31 | `find` gives the first free span the file fits, and fails exactly when none fits |
| DiskMap.MoveFilesLeft | day-09/src/lib.rs:27-36 | files keep their length, never move right, and files not yet reached stay put |
| DiskMap.MoveFilesSeparate | day-09/src/lib.rs:27-36 | moving files keeps all spans and files pairwise apart and on the disk |
| DiskMap.Part2Files | day-09/src/lib.rs:25-36 | after part 2 every file keeps its length, never moves right, stays on the disk, and shares no block with another |
| DiskMap.Checksum2Image | day-09/src/lib.rs:37-41 | the part-2 checksum is the positional sum over the disk the files make |
| DiskMap.Part2Image | day-09/src/lib.rs:25-43 | part 2 answers with the positional sum over the compacted disk, the checksum part 1 computes |
| TrailMap.Next | day-10/src/lib.rs:21-32 | every pushed entry is a neighbour on the map exactly one higher, at most four of them |
| TrailMap.NextComplete | day-10/src/lib.rs:21-32 | every neighbour one higher is pushed |
| TrailMap.PushClimbs | day-10/src/lib.rs:21-32 | the four pushes append exactly the climbs from the popped entry |
| TrailMap.Score | day-10/src/lib.rs:14-37 | the search from a 0 yields the number of distinct 9s reachable from it |
| TrailMap.Rating | day-10/src/lib.rs:52-74 | the search from a 0 yields the number of trails from it |
| TrailMap.PeaksAreTrailEnds | day-10/src/lib.rs:14-37 | the 9s the search reaches are exactly the ends of hiking trails from the start |
| TrailMap.RatingCountsTrails | day-10/src/lib.rs:52-74 | the rating of a start is the number of distinct hiking trails from it |
| TrailMap.ScoreAtMostRating | day-10/src/lib.rs:3-77 | a start reaches at most as many 9s as it has trails |
| TrailMap.Starts | day-10/src/lib.rs:9-13 | the starts are exactly the 0s of the map, in reading order |
| TrailMap.Part1 | day-10/src/lib.rs:3-40 | part 1 panics exactly on a map without rows, and otherwise sums the scores of all trailheads |
| TrailMap.Part2 | day-10/src/lib.rs:42-77 | part 2 panics exactly on a map without rows, and otherwise sums the ratings of all trailheads |
| TrailMap.ScoreSumAtMostRatingSum | day-10/src/lib.rs:3-77 | part 1's sum never exceeds part 2's |
| TrailMap.ParseRow | day-10/src/lib.rs:79-89 | a line parses exactly when every character is a digit, giving its digits in order |
| TrailMap.ParseShow | day-10/src/lib.rs:79-89 | a map of heights 0 to 9 written one row per line parses back to itself |
| Stones.Rules | day-11/src/lib.rs:27-42 | a stone becomes one or two stones |
| Stones.RulesZero | day-11/src/lib.rs:29-30 | a 0 becomes a 1 |
| Stones.RulesSplit | day-11/src/lib.rs:32-35 | a stone with an even number of digits splits into halves that, put back together, give the stone |
| Stones.RulesOdd | day-11/src/lib.rs:36-38 | any other stone is multiplied by 2024 |
| Stones.MinKey | day-11/src/lib.rs:44-56 | the drained key is the least key of the map |
| Stones.BlinkCounts | day-11/src/lib.rs:44-56 | a blink of the count map stands for a blink of the stone list |
| Stones.BlinkNCounts | day-11/src/lib.rs:8-25 | any number of blinks of the count map stands for as many blinks of the list |
| Stones.BlinkNTotal | day-11/src/lib.rs:17-25 | after any number of blinks the count map's total is the length of the list part 1 builds |
| Stones.BlinkGrows | day-11/src/lib.rs:44-56 | a blink never lowers the number of stones |
| Stones.Total | day-11/src/lib.rs:24 | summing the values drained from the count map gives the order-free sum of all counts |
| Stones.Init | day-11/src/lib.rs:20 | the corrected starting map counts every stone, repeats included |
| Stones.Part2Expands | day-11/src/lib.rs:17-25 | the corrected part 2 counts the stones part 1 would list after 75 blinks |
| Stones.InitAsWritten | day-11/src/lib.rs:20 | the source's starting map holds every starting stone with the count 1 |
| Stones.InitAsWrittenLoses | day-11/src/lib.rs:20 | two stones numbered 0 count as one in the source's map |
| Stones.InitAsWrittenDistinct | day-11/src/lib.rs:20 | without repeated stones the source's map is the counting one |
| GardenForest.Singletons | day-12/src/lib.rs:151-164 | the initial forest makes every index its own root with rank 0 |
| GardenForest.Root | day-12/src/lib.rs:171-176 | following parents ends at a root, and ranks grow strictly along the way |
| GardenForest.FindByIdx | day-12/src/lib.rs:171-176 | `find_by_idx` returns the root, points the index straight at it, and changes no index's root |
| GardenForest.FindKeepsRoots | day-12/src/lib.rs:171-176 | a compressing find makes no root a non-root and no non-root a root |
| GardenForest.FindAll | day-12/src/lib.rs:263-265 | `check`'s first pass points every visited index straight at its root and keeps every root |
| GardenForest.FindAllFlat | day-12/src/lib.rs:263-270 | after the first pass the forest is one level deep, as `check` asserts |
| GardenForest.Link | day-12/src/lib.rs:185-224 | linking attaches the lower-ranked root under the other, and on equal ranks the larger index under the smaller, whose rank grows by one |
| GardenForest.LinkRoots | day-12/src/lib.rs:185-224 | after a link the indices of both classes reach the survivor and every other index keeps its root |
| GardenFences.UnitEdge | day-12/src/lib.rs:232-259 | the recorded edge is the cell's left, right, top or bottom border, of length one |
| GardenFences.New | day-12/src/lib.rs:151-164 | a new structure makes every cell a singleton with rank 0, perimeter 0 and no edge list |
| GardenFences.Find | day-12/src/lib.rs:166-169 | `find` returns the root of the cell's set and changes only the parent links, none of the roots |
| GardenFences.Union | day-12/src/lib.rs:178-225 | `union` puts both cells in one set under one of their two roots, merges only those two sets, and conserves total perimeter and edges |
| GardenFences.JoinConserves | day-12/src/lib.rs:185-224 | joining two roots merges exactly their classes and conserves total perimeter and edges |
| GardenFences.IncreasePerimeter | day-12/src/lib.rs:227-230 | one more side is credited to the cell's root and to nothing else |
| GardenFences.AddEdge | day-12/src/lib.rs:232-259 | the cell's unit edge is appended to the list under the cell's own index |
| GardenFences.Rehome | day-12/src/lib.rs:271-280 | moving a non-root's list panics exactly when its parent holds no list, and otherwise appends it there |
| GardenFences.RehomeAll | day-12/src/lib.rs:271-280 | the second pass panics exactly when some visited non-root is orphaned, and otherwise empties every visited non-root |
| GardenFences.CheckFails | day-12/src/lib.rs:262-281 | `check` panics exactly when some non-root holds edges while its root holds none |
| GardenFences.CheckFlattens | day-12/src/lib.rs:262-281 | after `check` every cell's parent is its root and the sets are the ones before |
| GardenFences.CheckGathersEdges | day-12/src/lib.rs:262-281 | after `check` only roots hold lists, and every set holds exactly the edges its cells held |
| GardenSides.Position | day-12/src/lib.rs:291-292 | `position` finds the first segment starting where the current one ends, facing the same way |
| GardenSides.Extend | day-12/src/lib.rs:286-298 | prolonging a segment keeps it straight and keeps the total length, until no segment continues it |
| GardenSides.Retain | day-12/src/lib.rs:300 | `retain` keeps exactly the non-empty segments |
| GardenSides.UnionEdges | day-12/src/lib.rs:283-302 | merging keeps the list well formed, no longer, and of the same total length |
| GardenSides.UnionEdgesMaximal | day-12/src/lib.rs:283-302 | after merging no segment can be prolonged by another, so every side is maximal |
| GardenScan.ScanClasses | day-12/src/lib.rs:19-38 | after any prefix of the scan every set holds one plant, and every visited pair of equal neighbours shares a set |
| GardenScan.ScanCounts | day-12/src/lib.rs:19-38 | part 1's scan credits every set with its number of boundary visits and records no edges |
| GardenScan.ScanFiles | day-12/src/lib.rs:65-84 | part 2's scan leaves every set holding exactly the unit fences of its boundary visits |
| GardenScan.ScanAgrees | day-12/src/lib.rs:19-84 | both parts' scans end with the same sets |
| GardenPrice.ParseGarden | day-12/src/lib.rs:307-315 | a parsed garden has at least one row of plants and joins back to the input |
| GardenPrice.ParseGardenJoin | day-12/src/lib.rs:307-315 | every garden written out row by row parses back to itself |
| GardenPrice.Regions | day-12/src/lib.rs:39 | every region label is a cell that labels itself |
| GardenPrice.RegionsHomogeneous | day-12/src/lib.rs:19-38 | a region holds one kind of plant |
| GardenPrice.RegionsJoined | day-12/src/lib.rs:26-29 | two equal neighbouring cells share a region |
| GardenPrice.RegionsCover | day-12/src/lib.rs:46 | the regions' areas add up to the whole garden |
| GardenPrice.PerimetersChecked | day-12/src/lib.rs:39 | part 1's `check` never panics and leaves every cell pointing at its region, with its fences counted |
| GardenPrice.Part1Price | day-12/src/lib.rs:11-55 | part 1 answers exactly for well-formed gardens, with the sum over regions of area times number of fences |
| GardenPrice.Part2 | day-12/src/lib.rs:57-97 | part 2 answers exactly for well-formed gardens whose `check` does not panic |
| GardenPrice.Part2Price | day-12/src/lib.rs:85-96 | part 2's answer is the sum over regions of area times the number of sides that `union_edges` makes of the region's fences, taking one list per region that holds exactly the region's unit fences |
| GardenPrice.FencedRegions | day-12/src/lib.rs:85 | after part 2's `check` the parents are the regions, and each region's list holds exactly its unit fences |
| GardenPrice.RegionSides | day-12/src/lib.rs:86-93 | a region's fences merge into maximal straight sides whose total length is the region's number of fences |
| ClawMachine.Solve | day-13/src/lib.rs:53-68 | Cramer's rule panics exactly on a zero determinant, or on a zero B step once the A count divides |
| ClawMachine.SolveSound | day-13/src/lib.rs:53-68 | presses found by the rule put the claw on the prize |
| ClawMachine.SolveComplete | day-13/src/lib.rs:53-68 | when the prize can be won and the rule does not panic, it finds those presses |
| ClawMachine.SolutionUnique | day-13/src/lib.rs:53-68 | with independent buttons the winning presses are unique, so they are the cheapest |
| ClawMachine.Tokens | day-13/src/lib.rs:53-68 | `tokens` panics exactly when the rule does, costs 3 per A and 1 per B press, and 0 for a prize out of reach |
| ClawMachine.Tokens2Shift | day-13/src/lib.rs:70-87 | `tokens2` is `tokens` with the prize moved ten trillion along both axes |
| ClawMachine.TokensNegative | day-13/src/lib.rs:53-68 | the source accepts a solution with a negative press count and reports a negative cost |
| ClawMachine.Cost | day-13/src/lib.rs:53-68 | the corrected cost panics where the source does and is never negative |
| ClawMachine.CostSpec | day-13/src/lib.rs:53-68 | a positive corrected cost pays for presses that win, and every prize won with non-negative presses is paid for |
| ClawMachine.SumCostPanics | day-13/src/lib.rs:9-21 | the corrected sums panic exactly where the source's do |
| ClawMachine.SumCostEqual | day-13/src/lib.rs:9-21 | when no machine needs negative presses, the corrected sums agree with the source's |
| RestroomRobots.WalkSpec | day-14/src/lib.rs:73-84 | a walk moves the robot by its velocity times the steps, wrapped around the floor, and keeps it on the floor |
| RestroomRobots.WalkTwice | day-14/src/lib.rs:73-84 | walking `n` steps and then `m` is walking `n + m` |
| RestroomRobots.Quadrant | day-14/src/lib.rs:86-98 | a quadrant is defined exactly on the floor, is at most 4, and is 0 exactly on a middle line |
| RestroomRobots.QuadrantMirror | day-14/src/lib.rs:86-98 | on a floor of odd width, mirroring across the middle column swaps left and right quadrants |
| RestroomRobots.TallyCounts | day-14/src/lib.rs:14-19 | each tally entry counts the robots in its quadrant |
| RestroomRobots.SafetyFactorSpec | day-14/src/lib.rs:20 | the safety factor is the product of the robot counts of quadrants 1 to 4 |
| RestroomRobots.QuadrantsSpec | day-14/src/lib.rs:11-22 | robots that start on the floor never make part 1 panic, and each lands in the quadrant of its wrapped-around position |
| RestroomRobots.ChristmasEgg | day-14/src/lib.rs:28-35 | the search finds the least time in its range that is 13 modulo 101 and 79 modulo 103, or 0 when there is none |
| RestroomRobots.EggResidue | day-14/src/lib.rs:30-35 | every such time is 7083 modulo 101 · 103 |
| RestroomRobots.Part2Robots | day-14/src/lib.rs:37-43 | part 2's two walks fail exactly when a robot walks on a floor of size 0; robots that start on the floor end where 7083 steps take them, still on the floor |
| RestroomRobots.Part2 | day-14/src/lib.rs:24-50 | part 2 answers 7083 exactly when its walks and its drawing do not panic |
| RestroomRobots.Part2Panics | day-14/src/lib.rs:120-136 | part 2 panics on a floor of width 0, and of height 0 with a robot on it; robots that start on a non-empty floor always let it answer |
| RestroomRobots.ParseShow | day-14/src/lib.rs:109-118 | a number written in decimal, with a sign when negative, reads back with the rest of the input |
| WarehouseGrid.NextPos | day-15/src/lib.rs:116-122 | `next_pos` panics exactly when a coordinate would go below zero, and otherwise gives the neighbour in the move's direction |
| WarehouseGrid.GpsSumSet | day-15/src/lib.rs:124-137 | changing one cell moves the GPS sum by that cell's coordinate |
| WarehouseGrid.RobotAt | day-15/src/lib.rs:331-350 | the robot is at the last `@` in reading order |
| WarehouseGrid.ParseMovesRender | day-15/src/lib.rs:387-404 | the moves parse exactly when every character is an arrow or a newline, and read back as the text without newlines |
| Warehouse.MoveBoxSpec | day-15/src/lib.rs:92-114 | `move_box` walks a run of boxes; if an empty cell follows, the run shifts one cell on, and at a wall the grid stays as it was |
| Warehouse.ShiftTotals | day-15/src/lib.rs:92-114 | a push keeps the box and wall counts, and moves the GPS sum by the first box's carried distance |
| Warehouse.RobotStepSpec | day-15/src/lib.rs:75-90 | a move stays put at a wall, steps onto an empty cell, and steps onto a box cell only when the push succeeds |
| Warehouse.RunMovesKeeps | day-15/src/lib.rs:75-90 | after any number of moves the robot stands on an empty cell and no box or wall was created or destroyed |
| Warehouse.ParseWarehouse | day-15/src/lib.rs:328-354 | a parsed warehouse has the robot on an empty cell |
| Warehouse.Part1Keeps | day-15/src/lib.rs:12-17 | part 1 answers with the GPS sum of the boxes after all moves, and keeps every box and wall |
| WideWarehouse.DryWideBox | day-15/src/lib.rs:186-238 | a dry run never writes the grid |
| WideWarehouse.PushWideBox | day-15/src/lib.rs:186-238 | a real push keeps every cell behind its start and every tile count, and a successful one empties its start cell |
| WideWarehouse.RobotStepSpec | day-15/src/lib.rs:168-183 | a move stays put at a wall, steps onto an empty cell, and at a box steps on with the real push exactly when the dry run allows it |
| WideWarehouse.RunMovesConserves | day-15/src/lib.rs:168-183 | walking keeps the grid's shape and the number of tiles of each kind |
| WideWarehouse.Widen | day-15/src/lib.rs:406-425 | a widened character exists exactly for grid and single characters; grid characters double and the rest stay |
| WideWarehouse.TransformConcat | day-15/src/lib.rs:406-425 | widening works character by character |
| WideWarehouse.NarrowTransform | day-15/src/lib.rs:406-425 | widening loses nothing: the original text can be read back |
| WideWarehouse.TransformRow | day-15/src/lib.rs:406-425 | a grid row widens to twice its length, cell `i` to positions `2i` and `2i + 1` |
| WideWarehouse.WideStart | day-15/src/lib.rs:356-384 | the wide warehouse holds whole boxes only, and the robot stands on an even column |

## Left out

- Parsing by `nom` is left out where it only splits text into numbers: days 1, 2, 5, 7, 11 and 13, and the robot lines of day 14 apart from `parse_i32`. Those solvers take the parsed values. Days 3, 4, 8, 9, 10 and 12 have their parsers modelled. Day 6 models the location and guard parsers, but not the `separated_list1(newline, many1(...))` that reads the lab into rows; its solvers take the rows. Day 15 models reading the grid rows, the moves and the widening, but not the `nom` split of the text into those two sections.
- Integer widths are not modelled: the `u32` sums of days 1 and 3, the `u8` levels of day 2, the `u64` arithmetic of days 7 and 11, `i64` in day 13, `usize` sums in days 9, 10 and 12, and the `u16` perimeters and `u8` ranks of the day-12 union-find. Overflow would panic or wrap in the source and does not in the model.
- Antennas.Part1Spec: does not model the `as u8` truncation of the width, height and coordinates. The model assumes maps of at most 255 lines of at most 255 characters.
- Antennas.Part2Spec: does not model `u8` overflow in the walks. It also states the count only for rectangular maps, because on ragged maps the source visits points beyond the first line's width.
- Antennas.Part1Spec: `str::lines` strips a `\r` before a newline; the model does not.
- The test fixtures read from files in days 2, 4, 5, 6, 8, 9, 10, 12 and 15 are not shown, so their expected answers are left out.
- The progress bar and the `path_count` of day 6 are output only and are left out. Of the robot printing of day 14, only its panics are modelled, not the picture it prints.
- GuardPatrol.Part1Spec: the source's walk never ends on a looping lab. The model remembers visited states and answers `None` there.
- GuardPatrol.ParseGuardSpec: requires a lab of equal rows with at least two rows. The source panics or misplaces the guard on ragged labs.
- GuardPatrol.Part1Spec: `GuardPatrol.Part1` takes a lab of equal rows. The source reads the width from the first row and panics with an index out of bounds when the walk reaches a cell that a shorter row lacks. On ragged labs the model states nothing.
- GuardPatrol.Part2Spec: `GuardPatrol.Part2` takes a lab of equal rows, for the same reason as part 1. The source also panics when it places an obstruction in a cell that a shorter row lacks.
- PrintQueue.Part2Follows: the repair loop runs on fuel. `None` stands for a loop that may not end on cyclic rules. The parts require non-empty updates, as `separated_list1` guarantees.
- PrintQueue.RepairOrdered: requires distinct pages. With a repeated page `find_rule` looks only at first occurrences, so the fixed point need not be ordered.
- MulScanner.ParseInput: models the scanner on characters and returns consumed counts instead of remaining text.
- WordSearch.Part1Square: states the lines only for square grids. On rectangular non-square grids part 1 panics, as Part1NotSquare shows.
- DiskMap.ParseInput: a trailing newline fails `to_digit` in the source, and is `None` in the model.
- TrailMap.Part1: takes a parsed rectangular map. Ragged maps are left out.
- TrailMap.Part2: takes a parsed rectangular map, as part 1 does. The source reads the width from the first row and panics with an index out of bounds when a climb looks at a cell that a shorter row lacks. Ragged maps are left out.
- Stones.MinKey: the source drains its `HashMap` in hash order; the model drains in increasing key order. The sums do not depend on the order.
- GardenPrice.Regions: regions are proved to be single-plant and to join equal neighbours, not to be exactly the connected components.
- GardenPrice.RegionSides: proves that the merged sides are straight, maximal and as long as the fence. It does not prove that their number is the number of sides in the puzzle's sense.
- GardenPrice.Part2: the `check` panic of part 2 is kept as `None`; it is not proved unreachable.
- GardenPrice.Part2Price: names the fence lists that part 2's `check` gathers, one per region, each holding exactly the region's unit fences in the order the scan filed them. It does not prove that the side count is the same for every order of those fences, nor that every region has a fence. A region without a list counts nothing.
- WideWarehouse.RobotStepSpec: does not prove that the dry run's verdict equals the real run's, nor that the robot stands on an empty cell after a real push.
- WideWarehouse.DryWideBox: a box half pushed from its own side recurses forever in the source. The model answers `None` there.
- WideWarehouse.RunMovesConserves: states the grid's shape and its tile counts only. It does not prove that box halves stay paired after a real push, so the model does not rule out the `move_other_box` assertion (day-15/src/lib.rs:243-246) failing during a walk.
- RestroomRobots.WalkSpec: the `i32` velocities and `u32` casts are modelled only within the ranges the solver uses.
- RestroomRobots.ParseShow: `i32` overflow of the parser is not modelled.
- RestroomRobots.Part2: the `u32` products `width * height` and `y * width + x` of the drawing are unbounded in the model, so their overflow panics are not modelled.
- ClawMachine.Solve: exact quotients make the source's truncating division agree with Dafny's Euclidean division. Remainders are used only to decide divisibility.
- Characters are modelled as Dafny `char`. All inputs are ASCII, so byte offsets from `char_indices` are positions.

## Findings

| source | as written | input that shows it | evidently intended | confidence | as-written member | corrected member |
|---|---|---|---|---|---|---|
| day-11/src/lib.rs:20 | the starting stones are collected as `(n, 1)` pairs into a `HashMap`, so a repeated stone keeps the count 1 | the stones `0 0` | each starting stone counts once per occurrence, as part 1 counts them | medium, not executed | Stones.InitAsWritten (Stones.InitAsWrittenLoses) | Stones.Init (Stones.Part2Expands) |
| day-13/src/lib.rs:53-68 | Cramer's rule accepts a solution with a negative press count | A moves (2, 1), B moves (1, 2), prize at (0, 3): A pressed -1 times and B 2 times, cost -1 | a prize that needs negative presses cannot be won and costs nothing | medium, not executed | ClawMachine.Tokens (ClawMachine.TokensNegative) | ClawMachine.Cost (ClawMachine.CostSpec, ClawMachine.SumCostEqual) |
| day-08/src/lib.rs:63-64 | `x_a % dx` is computed before the `dx == 0` test, so the column branch at lines 64-71 is dead | the map `a` over `a`, that is `"a\na\n"`: two antennas in one column | the column branch counts the points of the column, 2 here | high, not executed | Antennas.Part2 (Antennas.StackedPanics) | Antennas.Part2Fixed (Antennas.Part2FixedSpec) |

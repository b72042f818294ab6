# Advent of Code 2024 solvers, modelled in Dafny

This project models the solvers of a Rust workspace of Advent of Code 2024
puzzles, one Dafny module per core source file, and proves what each solver
computes. Each of the following is modelled:

- the shared grid point type (`aoc/src/point.rs`) and its two copies (`day10/src/point.rs`, `day12/src/point.rs`);
- the sorting and counting of day 1;
- the report rules of day 2;
- the instruction machine of day 3;
- the word search of day 4;
- the page-ordering rules of day 5;
- the guard walk of day 6;
- the operator search of day 7;
- the antinodes of day 8;
- the disk compaction of day 9;
- the trail enumeration of day 10;
- the stone blinks of day 11;
- the garden regions of day 12;
- the robots of day 14;
- the warehouse of day 15;
- the maze successor function of day 16;
- both three-bit computers and the reverse search of day 17;
- the towel decompositions of day 19;
- the race-track cheats of day 20;
- the keypad robots of day 21;
- the pseudo-random prices of day 22;
- the gate network of day 24;
- the keys and locks of day 25.

Code that changes state in the source becomes Dafny that changes state:
- classes with fields and `modifies` clauses;
- an `array` for the day 9 disk layout;
- `array2` grids for days 15 and 20;
- loops with invariants.

Each such method is proved against a specification function. Recursive and expression-style code becomes functions and lemmas.

Properties of the model:
- Rust's integer widths are written out in three places: `u64` shifts and wrap-around in day 17, the 24-bit masks of day 22, and `i32` bounds in day 14. Everywhere else sums and products are unbounded integers, so an overflow of the source's `usize`, `u64` or `i32` arithmetic is not modelled. Every member whose sums or products can overflow is named under "Left out". Plain counts of cells, lines, robots or cheats are not listed, because they cannot exceed the size of the input. The `i32` arithmetic of the grid point type is not written out either: coordinates and offsets are taken to fit in `i32` (see `GridPoint.Add` under "Left out").
- Most panics in the source (an index out of range, an `expect`, a `usize` underflow) become a precondition, or an error outcome where the source returns one. The panics that are not modelled are listed under "Left out": the overflow panics of a debug build, and day 10's height difference, which follows release-mode wrap-around (see `Day10.ClimbersSpec`).
- Hash map and hash set iteration order is never relied on: the loops pick elements in an arbitrary order, and the results are stated independently of that order.
- The standard sort is modelled as an insertion sort, which yields a sorted permutation.

Shared modules:
- `GridPoint` (`grid_point.dfy`) models the point type and bounds-checked grid access.
- `Wrappers` holds `Option` and `Result`.
- `Sorting` holds the insertion sort and its lemmas.
- `Sums` holds sums over sequences and sets.
- `Decimal` holds decimal text of numbers.
- `Bits` holds exclusive or, shifts and powers of two on unbounded naturals.
- `ReadingOrder` holds the first and last occurrences of a character in a list of lines.

## Model

| member | source | states |
|---|---|---|
| GridPoint.TupleRoundTrip | aoc/src/point.rs:13-29 | converting a point to a `(usize, usize)` tuple and back, or a tuple to a point and back, gives the original |
| GridPoint.AddPoints | aoc/src/point.rs:148 | `Point + Point` adds the rows and the columns |
| GridPoint.Add | aoc/src/point.rs:74-90 | `Point + (i32, i32)` is `Some` of the componentwise sum exactly when both sums are non-negative, `None` otherwise |
| GridPoint.AddNonNegativeIsTotal | aoc/src/point.rs:78-79 | with both deltas non-negative the addition always succeeds with the componentwise sum |
| GridPoint.Sub | aoc/src/point.rs:116-146 | `Point - (i32, i32)` is `Some` exactly when each delta is at most the coordinate, and then adding the deltas back gives the point |
| GridPoint.SubUndoesAdd | aoc/src/point.rs:119-121 | subtracting an offset just added successfully gives the original point |
| GridPoint.CheckedIdx | aoc/src/point.rs:65-72 | `None` exactly when the row or the column is past the grid, otherwise `Some` of that cell |
| GridPoint.NeighboursAlong | aoc/src/point.rs:156-160 | the `flat_map`/`filter` chain yields at most one point per offset, all inside the grid |
| GridPoint.CardinalNeighboursOrder | aoc/src/point.rs:154-160 | the neighbours are the up, down, left and right candidates in that order, each kept only when it exists and is inside the grid |
| GridPoint.CardinalNeighboursSpec | aoc/src/point.rs:154-161 | at most 4 neighbours; a point is among them exactly when it is inside the grid at Manhattan distance 1; no duplicates |
| Day12Point.TupleRoundTrip | day12/src/point.rs:13-29 | the copy's tuple conversions invert each other |
| Day12Point.AddPoints | day12/src/point.rs:127 | the copy's `Point + Point` is the shared componentwise addition |
| Day12Point.AddAgrees | day12/src/point.rs:53-125 | the copy's offset addition and subtraction equal the shared partial semantics on every input, and never fail for non-negative deltas |
| Day12Point.AlongAgrees | day12/src/point.rs:134-139 | the copy's neighbour chain over any list of offsets equals the shared one |
| Day12Point.CardinalNeighboursAgree | day12/src/point.rs:133-140 | the copy's neighbour list is the shared one: up, down, left, right, in-grid candidates only |
| Day10Point.ToTuple | day10/src/point.rs:7-11 | the tuple keeps the row and the column |
| Day10Point.AddVariantsAgree | day10/src/point.rs:35-69 | the owned and the borrowed additions agree with each other and with the shared one: `Some` iff both sums are non-negative, with the componentwise sum |
| Day10Point.AddPointsAgrees | day10/src/point.rs:71 | `Point + Point` is componentwise and equals the shared addition |
| Day01.Column | day01/src/main.rs:27-35 | one entry per line, in line order, holding that line's `k`-th number |
| Day01.ColumnSnoc | day01/src/main.rs:33-34 | one more line pushes its number onto the end of the column |
| Day01.Differences | day01/src/main.rs:44-50 | `zip` stops at the shorter column; entry `i` is the absolute difference of the `i`-th ids |
| Day01.SortIdsSpec | day01/src/main.rs:39-42 | sorting leaves a column sorted and a permutation of itself |
| Day01.TotalDistanceOrderFree | day01/src/main.rs:52-55 | the part 1 answer depends only on the multiset of ids in each column, not on line order |
| Day01.TotalDistanceZeroIff | day01/src/main.rs:52-55 | for equal-length columns the total distance is 0 exactly when both columns hold the same ids with the same multiplicities |
| Day01.ZeroDistanceSameIds | day01/src/main.rs:44-55 | a zero total distance means the sorted columns agree, so the columns are permutations of each other |
| Day01.SameIdsZeroDistance | day01/src/main.rs:44-55 | columns that are permutations of each other sort to the same list and have total distance 0 |
| Day01.Day01.Parse | day01/src/main.rs:22-37 | `parse` needs at least two numbers per line and gives the first and second columns in line order |
| Day01.Day01.Sort | day01/src/main.rs:39-42 | both columns end sorted and each a permutation of what it was |
| Day01.Day01.GetDifferences | day01/src/main.rs:44-50 | as `Differences`, on the current columns |
| Day01.Day01.Solve | day01/src/main.rs:52-55 | sorts both columns and returns the sum of the pairwise distances of the sorted columns |
| Day01.CountMapAppend | day01/src/main.rs:77-81 | counting one more value is the `entry().and_modify(+1).or_insert(1)` update |
| Day01.RowIsWeightedCount | day01/src/main.rs:89 | one left id contributes the id times its number of occurrences on the right |
| Day01.OccurrencesIsMultiplicity | day01/src/main.rs:77-81 | the recursive occurrence count is the multiset multiplicity |
| Day01.PairScoreCons | day01/src/main.rs:86-95 | adding a right id adds its weighted count in the left column |
| Day01.PairScoreSymmetric | day01/src/main.rs:86-95 | the pairwise similarity score is the same with the columns swapped |
| Day01.PairScoreEmpty | day01/src/main.rs:86-95 | no right ids give score 0 |
| Day01.Similarities | day01/src/main.rs:86-91 | one term per left id, in order: the id times its count, 0 when missing |
| Day01.SimilaritySum | day01/src/main.rs:86-95 | summing the terms gives the pairwise score of the two columns |
| Day01.SeqSumFront | day01/src/main.rs:94 | a non-empty sum is its first term plus the sum of the rest |
| Day01.CountMapCounts | day01/src/main.rs:70-82 | the count for `v` is the number of lines whose second number is `v`, and `v` has an entry exactly when some line has it |
| Day01.Day01b.Parse | day01/src/main.rs:65-84 | `parse` gives the first column and the counts of the second |
| Day01.Day01b.GetDifferences | day01/src/main.rs:86-91 | term `i` is `left[i]` times its count, 0 when absent |
| Day01.SolveIsPairScore | day01/src/main.rs:93-95 | after `parse`, `solve` is the sum of `a` over every equal pair of left and right ids, in both column orders |
| Day02.Compare | day02/src/main.rs:68-84 | `Err` exactly when the step size is outside 1..=3 or the step goes against the current direction; otherwise `Ok` of the step's own direction, never `NotSet` |
| Day02.Remove | day02/src/main.rs:40-41 | `Vec::remove(i)`: one level shorter, levels before `i` kept, later ones shifted down |
| Day02.IsSafe | day02/src/main.rs:53-66 | on a non-empty report (it reads `report[0]`), true exactly when every step rises by 1 to 3 or every step falls by 1 to 3 |
| Day02.BrokenStep | day02/src/main.rs:57-63 | a step rejected by `compare` after steps of one direction rules out both directions, so the early `return false` is right |
| Day02.GoodStep | day02/src/main.rs:57-63 | a step accepted by `compare` extends the direction of the earlier steps to one more level |
| Day02.IsTolerable | day02/src/main.rs:35-48 | true exactly when the report is safe or safe after removing some one level |
| Day02.SingleLevelSafe | day02/src/main.rs:55-65 | a one-level report is safe: the loop has no step to reject |
| Day02.SafeDropEnds | day02/src/main.rs:39-45 | dropping the first or the last level of a safe report keeps it safe |
| Day02.SafeIsTolerable | day02/src/main.rs:35-48 | every safe report passes part 2, and so does a safe report with one stray level in front |
| Day02.CompareExamples | day02/src/main.rs:91-113 | the unit-test cases of `compare_number_and_direction` |
| Day02.SafeExamples | day02/src/main.rs:115-125 | the unit-test cases of `is_safe` |
| Day03.Contributions | day03/src/part2.rs:57-66 | instruction `i` adds `a * b` exactly when it is a multiplication and the state in force before it is `Enabled`, and 0 otherwise |
| Day03.Step | day03/src/part2.rs:58-65 | a multiplication keeps the state and changes nothing while disabled; a toggle adds nothing |
| Day03.Exec | day03/src/part2.rs:55-68 | a list of multiplications alone keeps the state, and leaves a disabled machine as it is |
| Day03.ExecSpec | day03/src/part2.rs:55-68 | `run`'s loop returns the sum of the contributions and ends in the state of the last toggle, or the starting state if there is none |
| Day03.ToggleAddsNothing | day03/src/part2.rs:59-64 | `Disable` and `Enable` only set the state and add nothing; a multiplication while disabled adds nothing |
| Day03.ExecPrefix | day03/src/part2.rs:57-66 | running one more instruction of the list is one more loop step |
| Day03.Program.FromInstructions | day03/src/part2.rs:30-37 | a program made from instructions keeps them and starts `Enabled` |
| Day03.Program.New | day03/src/part2.rs:48-53 | an empty program starts `Enabled` |
| Day03.Program.Run | day03/src/part2.rs:55-68 | leaves the instructions unchanged, returns the sum of the products met while enabled, and leaves the state of the last toggle |
| Day03.Program.Execute | day03/src/part2.rs:58-65 | one instruction: a multiplication adds `a * b` only while enabled, `don't()` and `do()` set the state; the instructions are untouched |
| Day03.DemoIs48 | day03/src/part2.rs:143-155 | the parsed demo program `[mul(2,4), don't(), mul(5,5), mul(11,8), do(), mul(8,5)]` runs to 48 and ends enabled |
| Day04.AddPos | day04/src/types.rs:15-24 | `Position + Position` adds the lines and the letters |
| Day04.ConstructorsAgree | day04/src/types.rs:26-39 | `Position::new(l, c)` and `From((l, c))` build the same position with line `l` and letter `c` |
| Day04.FromChar | day04/src/types.rs:50-59 | 'X', 'M', 'A', 'S' map to their variants, and exactly every other character to `Invalid` of itself |
| Day04.ParseGrid | day04/src/part1.rs:7-21 | one row per line and one letter per character, each converted by `LetterOption::from` |
| Day04.Translate | day04/src/part1.rs:128-133 | `.map(\|p\| pos + *p)`: entry `i` is `pos` plus offset `i` |
| Day04.WordOptions | day04/src/part1.rs:135-145 | at most one candidate per ray; every candidate kept is a ray moved to `pos` with every position between 0 and `max_grid` |
| Day04.ReadWord | day04/src/part1.rs:36 | the letters under the candidate's positions, in order |
| Day04.CountValid | day04/src/part1.rs:35-38 | `filter(is_valid)` keeps at most every word, and none exactly when no word reads the target |
| Day04.Matches | day04/src/part1.rs:34-38 | at most one match per ray; `Day04.MatchesCountSpelling` proves it is the number of rays spelling the word |
| Day04.MatchesCountSpelling | day04/src/part1.rs:33-39 | translating, filtering by the bounds, reading and comparing counts exactly the rays that lie inside the grid and spell the word |
| Day04.IsValidXmas | day04/src/part1.rs:148-156 | true exactly when the word is X, M, A, S |
| Day04.XmasRaysAreRays | day04/src/part1.rs:44-133 | eight rays of four positions, ray `k` at step `i` is `i` times its unit direction, and the eight directions are distinct non-zero unit steps |
| Day04.XmasOptionsShape | day04/src/part1.rs:44-146 | at most 8 candidates, each of 4 positions starting at `pos` |
| Day04.NoSpellingWithoutStart | day04/src/part1.rs:30-32 | a cell not holding the first letter starts no matching ray, so the `X` filter loses nothing |
| Day04.XmasScore | day04/src/part1.rs:30-39 | a cell scores at most 8, and only an `X` cell scores; `Day04.XmasScoreSpec` proves it is the number of rays spelling XMAS |
| Day04.XmasScoreSpec | day04/src/part1.rs:30-40 | a cell's part 1 count is the number of the 8 rays that spell XMAS from it inside the grid, at most 8 |
| Day04.CountSpellingBound | day04/src/part1.rs:30-40 | no more rays match than there are rays |
| Day04.IsValidMas | day04/src/part2.rs:107-110 | true exactly when the word is M, A, S |
| Day04.MasRaysShape | day04/src/part2.rs:50-105 | every candidate is a diagonal triple with `pos` in the middle; candidates 1 and 2, and 3 and 4, are reversals of each other |
| Day04.CountSpellingFour | day04/src/part2.rs:33-37 | with four rays the count is the sum over the four of whether each spells the word |
| Day04.SpellsMas | day04/src/part2.rs:33-37 | a triple centred on `pos` spells MAS exactly when both ends are in the grid, the centre is `A`, the first end `M` and the last `S` |
| Day04.XMasScore | day04/src/part2.rs:31-44 | a cell scores at most 1, and only an `A` cell scores; `Day04.XMasScoreSpec` proves when it does |
| Day04.XMasScoreSpec | day04/src/part2.rs:29-45 | at most two candidates match; an `A` cell counts exactly when its four diagonal neighbours are in the grid and both diagonals have an `M` at one end and an `S` at the other |
| Day04.Total | day04/src/part1.rs:30-40 | the part 1 answer is at most 8 per remaining cell; `Day04.Part2Bound` bounds part 2 (`day04/src/part2.rs:29-45`) by one per cell |
| Day04.Part2Bound | day04/src/part2.rs:29-45 | part 2 counts each cell at most once, so its answer is at most the number of cells |
| Day05.SpecialNumberOrdering.From | day05/src/main.rs:19-28 | the table after inserting `Less` for `(a, b)` and then `Greater` for `(b, a)` for every rule in order |
| Day05.CmpIn | day05/src/main.rs:11-16 | the stored ordering for the pair, `Equal` when there is none |
| Day05.RuleTableSpec | day05/src/main.rs:19-28 | after a rule `(a, b)`, `cmp(b, a)` is `Greater` and, for `a != b`, `cmp(a, b)` is `Less`; the table holds exactly the rule pairs and their reverses, never `Equal`; pages no rule mentions compare `Equal` |
| Day05.RuleTableKeys | day05/src/main.rs:22-25 | the table's keys are exactly the rule pairs and their reverses, and no stored value is `Equal` |
| Day05.SortUpdate | day05/src/main.rs:50-51 | the sorted copy is a permutation of the update |
| Day05.PartsPartition | day05/src/main.rs:47-72 | every update contributes to exactly one of the two parts, and in both cases its contribution is the middle page of the sorted copy, a page of the update |
| Day05.Part1IffInOrder | day05/src/main.rs:47-58 | an update in which no page compares `Greater` than a later one is left unchanged and contributes its middle page; when the rules order its pages consistently that is the only way to contribute to part 1 |
| Day05.PartSumsAdd | day05/src/main.rs:44-74 | the two answers together add up the middle page of every sorted update |
| Day06.RotateCycle | day06/src/main.rs:14-17 | rotation takes up to right to down to left to up; four rotations are the identity; a heading rotates to a different heading |
| Day06.PlaceFromChar | day06/src/main.rs:126-134 | '#' is an obstacle, '^' the start, every other character empty |
| Day06.IsState | day06/src/main.rs:47 | a position inside the grid with a heading is one of the finitely many guard states |
| Day06.AdvanceStaysInside | day06/src/main.rs:53-69 | when the inner loop moves, the guard stays inside the grid and keeps a heading |
| Day06.WalkStep | day06/src/main.rs:46-70 | one round of the outer loop: a state already recorded ends the walk with `found_loop`; otherwise the state is recorded and the walk leaves the grid, spins for ever in place, or continues from the moved state |
| Day06.InnerLoop | day06/src/main.rs:53-69 | the inner loop's result is `Advance`: leave when the next cell is off the grid, turn right in front of an obstacle, otherwise step forward; four turns in a row mean it spins for ever |
| Day06.WalkGuard | day06/src/main.rs:41-76 | returns the distinct positions of the recorded states and the loop flag, as the reference walk defines them; `None` exactly when the source would never return |
| Day06.WalkMeaning | day06/src/main.rs:46-70 | with `found_loop` the recorded states are closed under the guard's step, so the guard walks among them for ever; without it a recorded state steps off the grid; nothing recorded earlier is lost |
| Day06.WalkGuardSpec | day06/src/main.rs:41-76 | a walk that returns includes the start among its positions, all inside the grid; without a loop it ends in a state whose step leaves the grid; with one the recorded states are closed under the step |
| Day06.PlaceObstacle | day06/src/main.rs:78-82 | a grid of the same shape with an obstacle at `pos` and every other cell unchanged |
| Day06.FindStart | day06/src/main.rs:174-177 | the first `Start` cell in row-major order from the given cell, `None` when there is none from there on |
| Day06.ParseMap | day06/src/main.rs:159-182 | `None` (where `expect` panics) exactly when no `^` exists; otherwise the grid has one row per line, the first `^` in reading order is the start, and that cell becomes `Empty`, every other cell its character's place |
| Day06.CharGrid | day06/src/main.rs:166-172 | the lines become a grid of one row per line and one column per character, each cell the place of its character |
| Day06.PlaceObstacleFree | day06/src/main.rs:179 | `grid[start] = Place::Empty`: the same shape, that cell empty and every other cell unchanged |
| Day06.NoStart | day06/src/main.rs:174-177 | when the search for `Start` finds nothing, no line holds a `^` |
| Day06.FoundStart | day06/src/main.rs:174-181 | the start found is a `^` and the first in reading order; clearing it leaves every other cell the place of its character |
| Day06.AdvanceOnce | day06/src/main.rs:53-69 | one inner-loop round: leave when the next cell is off the grid, turn when an obstacle is ahead, step otherwise, and spin after four turns |
| Day06.StepsIntoExtend | day06/src/main.rs:47-52 | recording a state whose step moves keeps every recorded state stepping into the records or into the next state |
| Day07.ConcatArithmetic | day07/src/main.rs:72-74 | `format!("{acc}{n}").parse()` is `acc * 10^d + n`, with `d` the number of decimal digits of `n` |
| Day07.FirstSome | day07/src/main.rs:77-79 | `filter_map(\|x\| *x).next()` is `Some` exactly when some candidate is, and then it is one of the candidates |
| Day07.FirstOfThree | day07/src/main.rs:66-79 | of the three searches the `*` one wins, then the `+` one, then concatenation |
| Day07.Part1 | day07/src/main.rs:35-54 | `part1` returns either `None` or the test value |
| Day07.Part2 | day07/src/main.rs:56-80 | `part2` returns either `None` or the test value |
| Day07.Part1Spec | day07/src/main.rs:35-54 | `part1` returns `Some` exactly when some choice of `*` and `+` applied left to right reaches the test value, and then returns the test value itself |
| Day07.Reachable2Cons | day07/src/main.rs:64-76 | an equation is solvable with three operators exactly when one of the three choices for the first number leaves a solvable rest |
| Day07.Part2Spec | day07/src/main.rs:56-80 | `part2` returns `Some` exactly when some choice of `*`, `+` and concatenation reaches the test value, and then returns the test value |
| Day07.Part1ImpliesPart2 | day07/src/main.rs:35-80 | every equation `part1` solves, `part2` solves too |
| Day07.Examples | day07/src/main.rs:12-22 | `main`'s per-equation term, seeded with the first number: `190: 10 19` and `3267: 81 40 27` count in part 1, `83: 17 5` does not, `156: 15 6` counts only in part 2 |
| Day08.BoxMembers | day08/src/main.rs:60-62 | a point is in the grid's box exactly when `is_in_bounds` holds for it |
| Day08.ContributesSymmetric | day08/src/main.rs:47-53 | the antinodes of a pair do not depend on which antenna `tuple_combinations` yields first |
| Day08.Part1WithinPart2 | day08/src/main.rs:50-52 | every part 1 antinode of a pair is a part 2 antinode (one step along the line) |
| Day08.Part1SubsetPart2 | day08/src/main.rs:40-97 | the part 1 antinodes are a subset of the part 2 ones, so part 1's count is at most part 2's |
| Day08.Frequencies | day08/src/main.rs:123 | `found_towers` is exactly the set of characters stored in `data` |
| Day08.FrequenciesInsert | day08/src/main.rs:121-123 | inserting an antenna adds its frequency to the set |
| Day08.ColMax | day08/src/main.rs:125-127 | `char_max` is the largest column index seen, at least 0, and the last index of some line unless it is 0 |
| Day08.ScanStep | day08/src/main.rs:120-124 | scanning one more antenna cell extends the map by exactly that cell and its frequency |
| Day08.Grid.FromStr | day08/src/main.rs:107-131 | `data` holds exactly the non-'.' characters at their line and column; no antinodes; `line_max` is the last line index, `char_max` the largest column index |
| Day08.Grid.ParseLine | day08/src/main.rs:115-129 | one line's pass leaves `data` holding exactly the antenna cells of the lines up to it, with their frequencies collected |
| Day08.Grid.InsertCell | day08/src/main.rs:120-124 | inserting one antenna keeps `data` equal to the cells scanned so far and `found_towers` to its frequencies |
| Day08.Grid.AddAntinode | day08/src/main.rs:34-38 | inserts `p` exactly when it is on the grid; nothing else changes |
| Day08.Grid.Count | day08/src/main.rs:99-101 | the number of distinct antinodes |
| Day08.Grid.TowersOf | day08/src/main.rs:43-46 | the `filter` yields every antenna of frequency `t`, each once |
| Day08.Grid.PushRay | day08/src/main.rs:80-91 | a `while` loop pushes exactly the grid points `k >= 1` steps from the antenna along (or against) the difference, and stops once it leaves the grid |
| Day08.Grid.PushPair | day08/src/main.rs:49-52 | the on-grid points one pair pushes are exactly the points it contributes: the two mirror points in part 1; both antennas and every point of their line in steps of their difference in part 2 |
| Day08.Grid.PushPairs | day08/src/main.rs:43-53 | the `tuple_combinations` loop pushes the contributions of every unordered pair of the given antennas |
| Day08.Grid.Candidates | day08/src/main.rs:41-54 | the on-grid candidates are exactly the antinodes of all same-frequency pairs |
| Day08.Grid.AddAll | day08/src/main.rs:55-57 | adds exactly the candidates that are on the grid |
| Day08.Grid.FindAntinodesPart1 | day08/src/main.rs:40-58 | antinodes grow by exactly the on-grid mirror points of every same-frequency pair; the grid is unchanged |
| Day08.Grid.FindAntinodesPart2 | day08/src/main.rs:64-97 | antinodes grow by exactly the on-grid points on the lines through every same-frequency pair; the grid is unchanged |
| Day08.Grid.Collected | day08/src/main.rs:55-57 | the candidates that are on the grid form exactly the antinode set |
| Day08.PairOfStep | day08/src/main.rs:43-48 | one more inner pair adds its contributions |
| Day08.PairOfRow | day08/src/main.rs:43-48 | the pairs before row `i + 1` are those up to the end of row `i` |
| Day08.PairsOfFrequency | day08/src/main.rs:43-48 | the visited pairs are exactly the unordered pairs of distinct antennas of frequency `t` |
| Day08.AntinodeFromAdd | day08/src/main.rs:42 | one more frequency adds exactly its pairs' antinodes |
| Day08.FrequencyAdded | day08/src/main.rs:42-54 | the pairs of one frequency's antennas are what that frequency adds |
| Day08.AntinodeFromAll | day08/src/main.rs:42 | taking every frequency in `found_towers` gives every antinode |
| Day08.RayBound | day08/src/main.rs:82-91 | an on-grid point `k` steps along a ray from an on-grid antenna has `k` at most `line_max + char_max`, so each `while` loop ends |
| Day08.RayLeaves | day08/src/main.rs:82-91 | once a ray leaves the grid it does not come back, so stopping at the first off-grid point loses nothing |
| Day09.Repeat | day09/src/main.rs:157 | `vec![b; n]`: `n` copies of `b` |
| Day09.ExpandLength | day09/src/main.rs:147-158 | the expanded layout is as long as the digits add up to |
| Day09.ExpandFileCount | day09/src/main.rs:147-158 | file `k` occupies exactly as many blocks as the digit at position `2k`, and no other id occurs |
| Day09.CountConcat | day09/src/main.rs:157 | appending blocks adds their counts |
| Day09.BlockForFile | day09/src/main.rs:148-156 | the digit at position `idx` is file `k` exactly when `idx == 2k`: files at even positions, numbered in order |
| Day09.RepeatCount | day09/src/main.rs:157 | `n` copies of `b` hold `n` of `b` and nothing else |
| Day09.Digits | day09/src/main.rs:141-144 | each character becomes its decimal digit value |
| Day09.LastFileIndex | day09/src/main.rs:44-53 | the right-most file block: a file, with only free blocks after it |
| Day09.LastFileId | day09/src/main.rs:44-53 | the id of the right-most file block, which `compact_part2` starts from |
| Day09.FindFreeBlock | day09/src/main.rs:73-85 | a found window starts at or after the search start and fits in the layout |
| Day09.FindFreeBlockSpec | day09/src/main.rs:73-85 | a found window is `length` free blocks, and no window of `length` free blocks starts before it; `None` means there is none |
| Day09.FirstIndex | day09/src/main.rs:88-96 | an index holding `x` |
| Day09.FirstIndexIsFirst | day09/src/main.rs:88-96 | no earlier index holds `x` |
| Day09.LastIndex | day09/src/main.rs:88-96 | an index holding `x` |
| Day09.LastIndexIsLast | day09/src/main.rs:88-96 | no later index holds `x` |
| Day09.NewBlockInfo | day09/src/main.rs:118-126 | keeps `start` and `end` and sets `size` to `1 + end - start`, which needs `start <= end + 1` |
| Day09.FindNextBlockToMove | day09/src/main.rs:87-97 | for a present file, the first and the last of its blocks, with size at least 1 |
| Day09.FindNextBlockSpan | day09/src/main.rs:87-97 | every block of the file lies between the two reported ends |
| Day09.ChecksumUpdate | day09/src/main.rs:99-108 | replacing one block changes the checksum by the difference of its two weights `idx * id` |
| Day09.MoveLeftLowersChecksum | day09/src/main.rs:39 | moving a file block of id `id` from `j` to a free block at `i < j` lowers the checksum by `(j - i) * id` |
| Day09.Swap | day09/src/main.rs:39 | `Vec::swap` keeps the length |
| Day09.SwapMultiset | day09/src/main.rs:39 | a swap permutes the blocks |
| Day09.SwapStepsMultiset | day09/src/main.rs:64-68 | the `for` loop of swaps keeps the length and permutes the blocks |
| Day09.SwapStepsSpec | day09/src/main.rs:64-68 | when the two ranges are disjoint the loop exchanges them block for block in reverse and leaves every other block unchanged |
| Day09.SwapStepsAt | day09/src/main.rs:64-68 | the inductive step of the exchange at one index |
| Day09.MoveFileMultiset | day09/src/main.rs:55-70 | one round of `compact_part2` permutes the blocks |
| Day09.MoveFilePresent | day09/src/main.rs:55-70 | one round keeps every file present |
| Day09.Compact2Step | day09/src/main.rs:55-70 | moving the highest file and then the rest is compacting all of them |
| Day09.MoveFileSpec | day09/src/main.rs:55-70 | a contiguous file moves whole into the left-most free window that fits, if that window starts left of it, and its old blocks become free, all else unchanged; otherwise nothing changes |
| Day09.MoveIntoWindow | day09/src/main.rs:59-68 | swapping a contiguous file into a free window left of it fills the window with the file, frees the old place and changes nothing else |
| Day09.DiskLayout.FromStr | day09/src/main.rs:140-160 | the layout is the expansion of the digits: file `k`'s digit-many blocks alternating with free runs |
| Day09.DiskLayout.CompactPart1 | day09/src/main.rs:27-41 | on a non-empty layout the two-pointer loop leaves exactly `Compact1` of the starting blocks |
| Day09.Compact1FromMultiset | day09/src/main.rs:27-41 | the two-pointer compaction keeps the length and permutes the blocks |
| Day09.Compact1FromFilesFirst | day09/src/main.rs:27-41 | with only file blocks left of `left` and only free blocks right of `right`, the compaction ends with no free block before a file block |
| Day09.Compact1Spec | day09/src/main.rs:27-41 | `compact_part1`'s result is a permutation of the layout with no free block before a file block |
| Day09.Compact1Example | day09/src/main.rs:27-41 | `0.12` compacts to `021.`, whose checksum is 4 |
| Day09.DiskLayout.SwapCells | day09/src/main.rs:39 | exchanges the two blocks and changes nothing else |
| Day09.DiskLayout.SwapBlocks | day09/src/main.rs:64-68 | the layout after the `for` loop of swaps, `left` counting up and `right` down |
| Day09.DiskLayout.MoveNextFile | day09/src/main.rs:56-69 | one round of the `while let` loop for file `id` |
| Day09.DiskLayout.CompactPart2 | day09/src/main.rs:43-71 | with every id up to the last present, files move from the highest id down to 0 as `MoveFile` says, and the blocks end permuted |
| Day09.ExpandExample | day09/src/main.rs:137-161 | the disk map `12345` expands to `0..111....22222` |
| Day09.CountAfterDigit | day09/src/main.rs:141-159 | one more digit adds its value to file `k`'s blocks exactly when it is file `k`'s own digit |
| Day09.RepeatBlockCount | day09/src/main.rs:150-156 | the blocks for one digit are `File(k)` that many times exactly when it is file `k`'s digit, and no `File(k)` otherwise |
| Day10.Climbers | day10/src/main.rs:56-59 | the filtered neighbours are a subsequence-sized selection of the neighbours |
| Day10.ClimbersSpec | day10/src/main.rs:56-59 | a neighbour is kept exactly when it is one higher than the chain's last cell, and no neighbour is kept twice |
| Day10.ClimbingNeighbours | day10/src/main.rs:55-59 | the kept neighbours of the last cell are exactly its climbing successors, each once |
| Day10.CompleteSpec | day10/src/main.rs:68-70 | `filter(\|x\| x.len() == 10)` keeps exactly the ten-cell chains, without creating repeats |
| Day10.CompletesStep | day10/src/main.rs:63-67 | a ten-cell completion of a chain is one through a climbing next cell, completed from the extended chain |
| Day10.TravelSpec | day10/src/main.rs:49-73 | `travel` returns exactly the ten-cell climbing completions of the chain, each once; a chain of ten is returned as it is and a dead end yields nothing |
| Day10.TravelEachSpec | day10/src/main.rs:63-72 | the `flat_map` over the climbing neighbours yields, each once, the completions through one of them |
| Day10.ZerosInRowSpec | day10/src/main.rs:35-39 | the height-0 cells of one row from a column on, each once |
| Day10.ZerosSpec | day10/src/main.rs:35-39 | the starting positions are exactly the height-0 cells, each once |
| Day10.TrailIsCompletion | day10/src/main.rs:40-46 | a hiking trail is a completion of its own height-0 first cell |
| Day10.TravelFromSpec | day10/src/main.rs:40-46 | chaining `travel` over distinct starts yields, each once, the completions of one of the starts |
| Day10.SolveSpec | day10/src/main.rs:34-47 | `solve` yields every hiking trail of the map exactly once and nothing else |
| Day10.TrailHeights | day10/src/main.rs:51 | along a trail the i-th cell has height i and consecutive cells are cardinal neighbours |
| Day10.Ends | day10/src/main.rs:22-26 | the set of (first, last) pairs holds exactly the ends of the chains and is no larger than the chain list |
| Day10.PartsRelated | day10/src/main.rs:20-32 | part 1 counts exactly the (start, summit) pairs some trail joins, and is at most part 2 |
| Day10.Part1 | day10/src/main.rs:20-27 | the number of distinct (start, summit) pairs is at most part 2 |
| Day10.Part2 | day10/src/main.rs:29-32 | the number of trails is zero exactly when the map has no trail |
| Day11.LenSpec | day11/src/main.rs:34-37 | `len(n)` is the number of decimal digits of `n`, 1 for 0, and `n` lies below `10^len` and, when positive, at or above `10^(len-1)` |
| Day11.LenBetween | day11/src/main.rs:34-37 | a number between `10^(k-1)` and `10^k` has `k` digits |
| Day11.StepShape | day11/src/main.rs:39-53 | 0 becomes `[1]`; a non-zero number with an even digit count becomes two stones; any other becomes `[x * 2024]` |
| Day11.SplitHalves | day11/src/main.rs:45-49 | the split halves, put side by side, give back the number; the left half has exactly half the digits and the right half is below `10^(half)` |
| Day11.BumpAllSpec | day11/src/main.rs:22-28 | folding the offspring into the map adds `count` once per occurrence of a label and creates exactly the labels that were missing |
| Day11.BumpAllKeys | day11/src/main.rs:23-28 | the fold's keys are the old keys plus the new labels |
| Day11.BumpAllValue | day11/src/main.rs:26 | each label's count grows by `count` times its occurrences |
| Day11.OccPositive | day11/src/main.rs:22 | a label occurs in the offspring exactly when it is among them |
| Day11.BumpTotal | day11/src/main.rs:26 | one `entry(..).and_modify(..).or_insert(..)` adds `count` to the total |
| Day11.BumpAllTotal | day11/src/main.rs:22-28 | folding `k` offspring of count `c` adds `c * k` to the total |
| Day11.PartialAt | day11/src/main.rs:20-29 | after some labels have blinked, a label is present exactly when one of them turns into it, with the sum of their contributions |
| Day11.NoContribution | day11/src/main.rs:22 | a label no blinked stone turns into receives nothing |
| Day11.PartialStep | day11/src/main.rs:22-28 | folding the offspring of one more label extends the partial blink by that label |
| Day11.PartialStepKeys | day11/src/main.rs:22-28 | the keys of that step agree |
| Day11.PartialStepValues | day11/src/main.rs:22-28 | the counts of that step agree |
| Day11.PartialStepKey | day11/src/main.rs:22-28 | a label is produced by the extended set exactly when produced before or by the new label |
| Day11.PartialStepValue | day11/src/main.rs:26 | the new label's stones add `count` times their occurrences to each label's count |
| Day11.BlinkOnce | day11/src/main.rs:20-29 | one loop iteration yields exactly the blinked count map, whose total is the number of stones the old ones turn into |
| Day11.NothingBlinked | day11/src/main.rs:24 | the fold starts from the empty map, with total 0 |
| Day11.BlinkOneLabel | day11/src/main.rs:22-28 | folding one more label keeps both invariants of the rebuild: the partial map and its total |
| Day11.AddOffspring | day11/src/main.rs:22-28 | folding `step(num)` paired with `count` into the accumulator |
| Day11.SumValues | day11/src/main.rs:31 | the sum of all counts in the map |
| Day11.SumDone | day11/src/main.rs:31 | when no key is left, the running sum is the sum of all counts |
| Day11.TotalIsSum | day11/src/main.rs:31 | the sum of the counts is the number of stones |
| Day11.AddCount | day11/src/main.rs:31 | adding one more key's count keeps the running sum right |
| Day11.Blink | day11/src/main.rs:18-32 | the number of stones after `count` blinks of the count map |
| Day11.BlinkZero | day11/src/main.rs:18-32 | with no blink, `blink` returns the number of stones it was given |
| Day11.Examples | day11/src/main.rs:34-53 | `len` of 0, 9, 10 and 1000 and each rule of `step` on sample values |
| Day12.ReachSymmetric | day12/src/main.rs:180-185 | a same-letter step can be taken both ways, so reachability is symmetric |
| Day12.ReachTransitive | day12/src/main.rs:180-185 | reachability through same-letter steps is transitive |
| Day12.ReachLetter | day12/src/main.rs:183 | a cell reachable from another is inside the grid and has the same letter |
| Day12.ClosedIsComponent | day12/src/main.rs:178-186 | a closed set of cells that holds `a` and whose cells all reach `a` is exactly the region of `a` |
| Day12.ComponentsDisjoint | day12/src/main.rs:159-162 | two regions are equal or disjoint |
| Day12.ComponentLetter | day12/src/main.rs:183 | every cell of a region has its seed's letter |
| Day12.SharedRegion.constructor | day12/src/main.rs:164 | the shared set starts empty |
| Day12.FloodFill | day12/src/main.rs:178-186 | inserts `next`, and every cell it adds reaches `next` and has all its same-letter neighbours in the set when it returns |
| Day12.NeighbourList | aoc/src/point.rs:150-161 | every neighbour `flood_fill_region` is handed lies inside the grid and is linked to the seed when it carries the same letter, and every linked cell is among them |
| Day12.FilledIsComponent | day12/src/main.rs:164-168 | a flood fill started on an empty set collects exactly the region of its seed |
| Day12.AddArea | day12/src/main.rs:47-53 | `add` grows the area by one exactly when the cell is new, and the cell is then a member |
| Day12.UnionSpec | day12/src/main.rs:169 | a cell is seen exactly when it lies in one of the regions found |
| Day12.RegionApart | day12/src/main.rs:159-165 | the region of a cell outside a region is disjoint from it |
| Day12.AddRegion | day12/src/main.rs:164-173 | pushing the region of an unseen cell keeps the found regions pairwise disjoint, each a true region, with `seen_points` their union |
| Day12.Visit | day12/src/main.rs:159-173 | one cell of the scan: afterwards the cell is seen and the invariant holds |
| Day12.FindRegion | day12/src/main.rs:152-176 | the result partitions the grid into its regions: pairwise disjoint, each the region of one of its cells, covering every cell |
| Day12.SeenStep | day12/src/main.rs:155-158 | after visiting a cell, every cell up to it in row-major order is seen |
| Day12.SeenLine | day12/src/main.rs:155-157 | finishing a row moves on to the next |
| Day12.SeenAll | day12/src/main.rs:155-158 | after the scan every cell is seen |
| Day12.Covering | day12/src/main.rs:152-176 | once every cell is seen, every cell lies in some region, and only grid cells do |
| Day12.CountIn | day12/src/main.rs:58-61 | the member neighbours are no more than the neighbours |
| Day12.CountInConcat | day12/src/main.rs:58-61 | counting members splits over concatenation |
| Day12.FenceAtSides | day12/src/main.rs:58-62 | `4 - count` is one fence piece for every side whose neighbour is outside the grid or outside the region |
| Day12.CountInCandidate | day12/src/main.rs:58-61 | one side counts as a member neighbour exactly when it is not exposed |
| Day12.FenceLength | day12/src/main.rs:55-65 | the sum over the cells of their fence pieces |
| Day12.ValuePart1 | day12/src/main.rs:67-69 | area times fence length |
| Day12.CornersExtremes | day12/src/main.rs:89-140 | a cell with no same-letter cardinal neighbour has four corners, a cell enclosed by its letter has none, and a cell in a vertical bar has none |
| Day12.LoneCellCorners | day12/src/main.rs:80-109 | a cell whose four neighbours are all off the grid or another letter has four corners |
| Day12.GetLetter | day12/src/main.rs:71-74 | the letter of some cell of the non-empty region |
| Day12.LetterOfRegion | day12/src/main.rs:71-74 | on a true region every cell has the same letter, so the cell chosen does not matter |
| Day12.CornerTotal | day12/src/main.rs:78-141 | the sum over the cells of the convex and concave corner tests against the letter |
| Day12.ValuePart2 | day12/src/main.rs:76-143 | corners against the region's own letter times the area |
| Day14.MoveRobot | day14/src/main.rs:146-162 | when the `i32` arithmetic does not overflow, the new position lies on the 101 x 103 field and is congruent to the unwrapped position in both coordinates |
| Day14.MoveCompose | day14/src/main.rs:156-157 | moving `s` seconds and then `t` more is moving `s + t` seconds |
| Day14.ComposeAxis | day14/src/main.rs:156-157 | one coordinate of that composition under `rem_euclid` |
| Day14.ModAfterAdd | day14/src/main.rs:156-157 | reducing before adding more does not change the Euclidean remainder |
| Day14.MoveZero | day14/src/main.rs:156-159 | a robot on the field stays put after zero seconds |
| Day14.QuadrantSpec | day14/src/main.rs:103-127 | `None` exactly on the middle column x = 50 or the middle row y = 51; otherwise the quadrant of the strict comparisons |
| Day14.FoldSpec | day14/src/main.rs:75-85 | the fold counts the robots of each quadrant, and with the robots on the midlines accounts for every robot |
| Day14.SafetyFactorSpec | day14/src/main.rs:74-87 | the product of the four quadrant counts, 0 exactly when some quadrant is empty |
| Day14.MoveAll | day14/src/main.rs:27-36 | every robot moved: as many robots, all on the field, velocities kept |
| Day14.CountPositive | day14/src/main.rs:179-185 | a position has a positive count exactly when some robot stands there |
| Day14.Counter | day14/src/main.rs:179-185 | the keys are exactly the occupied positions and each value is the number of robots there |
| Day14.CounterTotal | day14/src/main.rs:179-185 | the counts add up to the number of robots |
| Day14.PositionsDistinct | day14/src/main.rs:56-57 | there are never more occupied positions than robots, and as many exactly when no two robots share a position |
| Day14.PositionsIndex | day14/src/main.rs:181-182 | every robot's position is occupied |
| Day14.InitIndex | day14/src/main.rs:181-182 | every occupied position holds some robot |
| Day14.AllApart | day14/src/main.rs:43-57 | `robots.len() == c.len()` after `steps` seconds exactly when no two moved robots share a position |
| Day15Types.CellRoundTrip | day15/src/types.rs:11-32 | `Cell::from` accepts exactly the four glyphs of `Debug`, and each inverts the other |
| Day15Types.DirectionRoundTrip | day15/src/types.rs:42-65 | `try_from` succeeds exactly on the four arrows, and the glyph of a direction converts back to it |
| Day15Types.OffsetSpec | day15/src/types.rs:67-76 | each offset is a unit cardinal vector, and different directions have different offsets |
| Day15Types.BiggerGlyphSpec | day15/src/types.rs:78-98 | the widened cells print as distinct glyphs, sharing wall, empty and robot glyphs with `Cell` |
| Day15.WhereSpec | day15/src/main.rs:74-76 | the cells listed for a kind are exactly the grid cells of that kind |
| Day15.NotWallInside | day15/src/main.rs:27-28 | in a walled warehouse a non-wall cell is off the border, so a step from it stays in the grid |
| Day15.Next | day15/src/main.rs:27 | a step from a cell off the border exists and moves one cell closer to the border |
| Day15.Ahead | day15/src/main.rs:26-27 | the cell in front of the robot exists and lies in the grid |
| Day15.RunEnd | day15/src/main.rs:45-66 | the first cell of the run that is not a crate lies in the grid, no further than the border |
| Day15.SwapSize | day15/src/main.rs:68-71 | exchanging two cells keeps the number of cells of every kind |
| Day15.SwapSame | day15/src/main.rs:68-71 | exchanging two cells of the same kind changes nothing |
| Day15.SwapChain | day15/src/main.rs:49-52 | swapping along a run of crates composes to one exchange of its ends |
| Day15.WalkSets | day15/src/main.rs:35-37 | walking into an empty cell keeps the walls and moves the robot there |
| Day15.PushSets | day15/src/main.rs:30-34 | pushing a run keeps the walls and moves the robot one cell |
| Day15.MoveAndSwap | day15/src/main.rs:68-71 | exchanges the two cells, changes nothing else, and returns the second |
| Day15.MoveCrates | day15/src/main.rs:45-66 | succeeds exactly when an empty cell follows the run of crates before a wall, returning the first crate's cell with it and that empty cell exchanged; on failure the grid is unchanged |
| Day15.Push | day15/src/main.rs:30-34 | a push either shifts the run and moves the robot onto the first crate's cell, or changes nothing |
| Day15.Step | day15/src/main.rs:26-39 | the new layout and robot position are `StepOf` of the old layout: a wall ahead changes nothing, an empty cell trades places with the robot, a crate run moves one cell into the empty cell after it with the robot on the first crate's cell, and otherwise nothing changes; the grid stays walled with one robot, at the new position |
| Day15.MoveRobot | day15/src/main.rs:17-43 | the final layout is `Walk` of the starting layout along the whole path, from the robot's cell; the walls are where they were, there is still exactly one robot, and every kind keeps its count |
| Day15.SwapDisjoint | day15/src/main.rs:68-71 | exchanging two cells keeps two disjoint kinds disjoint |
| Day15.SwapUnion | day15/src/main.rs:68-71 | exchanging two cells in a union of kinds is exchanging them in each kind |
| Day15.ExchangeKeeps | day15/src/main.rs:68-71 | exchanging two grid cells keeps every cell of exactly one kind and keeps each kind's count |
| Day15.RunEndInside | day15/src/main.rs:45-66 | the end of a run of crates lies in the grid |
| Day15.WalkIntoEmpty | day15/src/main.rs:35-37 | walking into an empty cell leaves a walled warehouse with the one robot there, the walls and the counts kept |
| Day15.PushIntoEmpty | day15/src/main.rs:30-34 | pushing a run of crates into the empty cell after it leaves a walled warehouse with the one robot on the first crate's cell, the walls and the counts kept |
| Day15.StepOfKeeps | day15/src/main.rs:26-39 | a step keeps the warehouse walled with one robot, now one cell ahead or where it was, and keeps the walls and the number of empty cells and crates |
| Day15.WalkKeeps | day15/src/main.rs:24-42 | a whole walk keeps the warehouse walled with one robot, the walls and the number of empty cells and crates |
| Day15.WalkAppend | day15/src/main.rs:24-42 | walking `p` and then `q` is walking `p + q` |
| Day15.RunEndAgrees | day15/src/main.rs:45-66 | where `move_crates` stops on the grid is where the run of the grid's layout ends |
| Day15.ContentsValid | day15/src/main.rs:18-22 | a walled grid whose only robot is at `p` gives a valid layout with the robot at `p` |
| Day15.FindRobot | day15/src/main.rs:18-22 | the row-major search finds the only robot cell |
| Day15.CratesFromSpec | day15/src/main.rs:74-81 | the row-major scan lists exactly the crate cells from a position on |
| Day15.Part1Crates | day15/src/main.rs:73-83 | the score is summed over exactly the crate cells |
| Day15.CratesFromDistinct | day15/src/main.rs:74-81 | no crate is scored twice |
| Day15.ScoredCrates | day15/src/main.rs:73-83 | the score counts each crate of the grid exactly once |
| ReadingOrder.LastSpec | day16/src/main.rs:101-113 | the position a scan records for a marker is its last occurrence before the current place in reading order, and `None` exactly when there is none |
| Day16.Open | day16/src/main.rs:77 | the filter keeps exactly the neighbours that are not walls |
| Day16.OpenNoRepeats | day16/src/main.rs:75-77 | filtering keeps the neighbour list free of repeats |
| Day16.Moves | day16/src/main.rs:78-92 | the `map` turns each open neighbour into one move, in order |
| Day16.OpenNeighbours | day16/src/main.rs:75-77 | exactly the open cells one cardinal step from `current` |
| Day16.SuccessorAt | day16/src/main.rs:74-94 | each successor is an open neighbour; straight ahead keeps the facing at cost 1, any other costs 1001 and faces the way the step went |
| Day16.SuccessorsComplete | day16/src/main.rs:74-94 | every open neighbour is a successor and none is listed twice |
| Day16.SuccessorsCover | day16/src/main.rs:74-93 | a cell is a successor exactly when it is an open cardinal neighbour |
| Day16.SuccessorsDistinct | day16/src/main.rs:74-93 | no cell is listed twice among the successors |
| Day16.Heuristic | day16/src/main.rs:43-45 | the Manhattan distance, 0 exactly at the goal |
| Day16.Consistent | day16/src/main.rs:26 | one move never lowers the heuristic by more than it costs |
| Day16.PathPrefix | day16/src/main.rs:23-29 | along a walk the heuristic of the start is at most the cost so far plus the heuristic where it has got to |
| Day16.PathStep | day16/src/main.rs:23-29 | one step of a walk keeps that bound |
| Day16.Admissible | day16/src/main.rs:23-29 | no walk to the goal costs less than the heuristic of its start, as `astar_bag` requires |
| Day16.RowOf | day16/src/main.rs:102-106 | one cell per character, a wall exactly for `#` |
| Day16.MaxLenStep | day16/src/main.rs:114 | `cols.max(col_idx + 1)` tracks the longest line so far |
| Day16.CellsStep | day16/src/main.rs:101-106 | the cells of one more line follow those before |
| Day16.ParseLine | day16/src/main.rs:102-115 | one line: its cells appended, `cols` raised to its length, and `start` and `end` the last `S` and `E` so far |
| Day16.Parse | day16/src/main.rs:96-116 | the cells in reading order, the longest line's length, and the last `S` and last `E`, `(0, 0)` when absent |
| Day16.FromVec | day16/src/main.rs:121 | `Grid::from_vec` cuts the cells into rows of `cols` cells |
| Day16.CellsLength | day16/src/main.rs:99-116 | lines of one length `w` give `w` cells each |
| Day16.ParsedGrid | day16/src/main.rs:96-123 | for equal-length lines the maze has one row per line, and cell `(i, j)` is a wall exactly when character `j` of line `i` is `#` |
| Day16.FromVecSnoc | day16/src/main.rs:121 | one more whole row of cells adds one row to the grid |
| Day17Program.InstructionFrom | day17/src/program.rs:13-29 | `try_from` fails exactly on numbers above 7 |
| Day17Program.InstructionRoundTrip | day17/src/program.rs:13-29 | decoding inverts the opcode numbering, and every accepted number is an opcode |
| Day17Program.DecodeCombo | day17/src/program.rs:101-110 | `None` (the `unreachable!()`) exactly for operands 7 and above; otherwise a `u64` |
| Day17Program.Shr | day17/src/program.rs:64 | `x >> k` never exceeds `x` |
| Day17Program.Program.constructor | day17/src/program.rs:51-53 | the program holds the given registers and code |
| Day17Program.Program.Run | day17/src/program.rs:55-91 | the loop's outcome is the one `Exec` gives from `ip` 0, the code is unchanged, and a halted run leaves its final registers in the program |
| Day17Program.Program.SetA | day17/src/program.rs:93-95 | register A takes the new value and nothing else changes |
| Day17Program.StepSpec | day17/src/program.rs:59-88 | one instruction prints at most one value, below 8, and keeps the registers within `u64` |
| Day17Program.ExecSpec | day17/src/program.rs:55-91 | everything `run` prints lies in `0..=7`, the registers stay `u64`, and output is only appended |
| Day17Program.FuelMonotone | day17/src/program.rs:58 | a run that ends within a budget ends the same way with any larger one |
| Day17Program.TrailingNumberIgnored | day17/src/program.rs:58 | an `ip` on the last number halts the run without reading it |
| Day17Program.SplitComma | day17/src/program.rs:113-119 | cutting at commas yields at least one piece |
| Day17Program.SplitNoComma | day17/src/program.rs:113-119 | a number's digits contain no comma, so the cut falls after it |
| Day17Program.ResultRoundTrip | day17/src/program.rs:113-119 | cutting `result_to_string` at its commas gives back, in decimal, exactly the printed values |
| Day17Program.ExampleBst | day17/src/program.rs:125-133 | with C = 9, the program 2,6 sets B to 1 |
| Day17Program.ExampleOut | day17/src/program.rs:135-145 | with A = 10, the program 5,0,5,1,5,4 outputs 0, 1 and 2 |
| Day17Program.ExampleOutText | day17/src/program.rs:135-145 | those outputs are joined as the text `0,1,2` |
| Day17Program.ExampleBxl | day17/src/program.rs:164-173 | with B = 29, the program 1,7 sets B to 26 |
| Day17Program.ExampleBxc | day17/src/program.rs:175-188 | with B = 2024 and C = 43690, the program 4,0 sets B to 44354 |
| Day17Program.XorExample | day17/src/program.rs:175-188 | the bitwise exclusive or of 2024 and 43690 is 44354 |
| Day17Program.HalvingPass | day17/src/program.rs:147-162 | one pass of the loop 0,1,5,4,3,0 halves A and prints it modulo 8 |
| Day17Program.HalvingRun | day17/src/program.rs:147-162 | the loop 0,1,5,4,3,0 halts with A = 0 after printing `Halving(a)` |
| Day17Program.HalvingStep | day17/src/program.rs:147-162 | when A halved is not 0, the loop prints A halved modulo 8 and then what it prints from A halved |
| Day17Program.HalvingFrom2024 | day17/src/program.rs:147-162 | `Halving(2024)` is 4,2,5,6,7,7,7,7,3,1,0 |
| Day17Program.ExampleHalving | day17/src/program.rs:147-162 | with A = 2024 the program 0,1,5,4,3,0 prints 4,2,5,6,7,7,7,7,3,1,0 and leaves A = 0 |
| Day17Main.Rem8 | day17/src/main.rs:79 | `% 8` on `i128` takes the sign of the dividend: strictly between -8 and 8, and the Euclidean remainder for non-negative values |
| Day17Main.IXorI128 | day17/src/main.rs:76 | the two's-complement exclusive or of two `i128` values is an `i128` |
| Day17Main.DivShl | day17/src/main.rs:74 | `x / (1 << rhs)` stays in `i128`, and for non-negative `x` and `rhs < 127` it is `x >> rhs` |
| Day17Main.InstructionFrom | day17/src/main.rs:33-49 | `try_from(i128)` fails exactly outside `0..=7`, and agrees with the `u64` version on non-negative values |
| Day17Main.DecodeCombo | day17/src/main.rs:103-112 | `None` (the `unreachable!()`) exactly for negative operands and operands 7 and above; otherwise an `i128` |
| Day17Main.Program.constructor | day17/src/main.rs:58-62 | the program holds the given registers and code |
| Day17Main.Program.Run | day17/src/main.rs:65-101 | the loop's outcome is the one `Exec` gives from `ip` 0, the code is unchanged, and a halted run leaves its final registers in the program |
| Day17Main.StepSpec | day17/src/main.rs:69-98 | one instruction keeps the registers `i128` and prints at most one value, in `-7..=7` |
| Day17Main.ExecSpec | day17/src/main.rs:65-101 | the registers stay `i128` and every printed value lies in `-7..=7` |
| Day17Main.LastNumberPanics | day17/src/main.rs:68-70 | with `ip < len` as the loop test, an `ip` on the last number reads past the program and panics |
| Day17Main.StepAgrees | day17/src/main.rs:65-101 | on non-negative values the `i128` version executes an instruction as the `u64` version of day17/src/program.rs does |
| Day17Main.ExecAgrees | day17/src/main.rs:65-101 | an even-length program with even jump targets ends, on `u64` values, as the `u64` version ends whenever that one halts |
| Day17Main.ExampleBst | day17/src/main.rs:209-217 | with C = 9, the program 2,6 sets B to 1 |
| Day17Main.ExampleOut | day17/src/main.rs:219-229 | with A = 10, the program 5,0,5,1,5,4 prints 0,1,2 |
| Day17Main.HalvingLoopShape | day17/src/main.rs:231-246 | the program 0,1,5,4,3,0 has even length and even jump targets |
| Day17Main.ExampleHalving | day17/src/main.rs:231-246 | with A = 2024 the program 0,1,5,4,3,0 prints 4,2,5,6,7,7,7,7,3,1,0 and leaves A = 0 |
| Day17Main.ExampleBxl | day17/src/main.rs:248-257 | with B = 29, the program 1,7 sets B to 26 |
| Day17Main.ExampleBxc | day17/src/main.rs:259-272 | with B = 2024 and C = 43690, the program 4,0 sets B to 44354 |
| Day17Main.AShrNonNegative | day17/src/main.rs:153 | the arithmetic right shift agrees with the unsigned one on non-negative values |
| Day17Main.Shl3 | day17/src/main.rs:174 | `a <<= 3` on `i128` yields an `i128`, losing the bits past the sign bit |
| Day17Main.Digits | day17/src/main.rs:151-156 | when no shift panics, the formula yields `digits_found` values |
| Day17Main.Part2 | day17/src/main.rs:122-181 | the loop's outcome is the one the search `SearchFrom` gives from `a = 0` with one digit matched |
| Day17Main.SearchFound | day17/src/main.rs:162-175 | the `a` the search stops at makes the formula reproduce the whole program |
| Day17Part2.Digits | day17/src/part2.rs:39-46 | the formula yields `n` digits exactly when no `a >> (3 * x)` reaches a shift of 64 |
| Day17Part2.Shl3 | day17/src/part2.rs:56 | `a <<= 3` on `u64` stays a `u64`, dropping the bits shifted out |
| Day17Part2.Part2 | day17/src/part2.rs:11-63 | the loop's outcome is the one the search `SearchFrom` gives from `a = 0` with one digit matched |
| Day17Part2.SearchFound | day17/src/part2.rs:49-57 | the `a` the search stops at makes the formula reproduce the whole program |
| Day17Part2.XorBelow8 | day17/src/part2.rs:42-44 | the exclusive or of two octal digits is an octal digit |
| Day17Part2.DigitAgrees | day17/src/part2.rs:41-44 | on a non-negative A, this `u64` formula and the `i128` one of day17/src/main.rs give the same digit |
| Day17Part2.DigitsAgree | day17/src/part2.rs:39-46 | and the same list of digits |
| Day17Part2.Part2Emulator | day17/src/part2.rs:65-89 | the program is unchanged, and the outcome is `EmuSearchFrom` from `a = 0` with one digit matched, B and C carried over from one run to the next; an `a` it stops at makes the program print itself |
| Day17Part2.EmuSearchFound | day17/src/part2.rs:68-88 | an `a` the emulated search stops at makes the program print itself, for some B and C |
| Day17Part2.XorFiveSix | day17/src/part2.rs:24 | `((a & 7) ^ 5) ^ 6 == (a & 7) ^ 3` |
| Day17Part2.PassFirstHalf | day17/src/part2.rs:21-24 | `bst 4; bxl 5; cdv 5; bxl 6` sets B and C from A as the decompilation says |
| Day17Part2.PassSecondHalf | day17/src/part2.rs:25-27 | `adv 3; bxc 1; out 5; jnz 0` shifts A, prints the digit and loops while A is not 0 |
| Day17Part2.PassShift | day17/src/part2.rs:25-26 | `adv 3` then `bxc`: A drops three bits and B takes in C |
| Day17Part2.PassOutput | day17/src/part2.rs:27 | `out 5` then `jnz 0` prints B modulo 8 and loops while A is not 0 |
| Day17Part2.DecompiledPass | day17/src/part2.rs:20-27 | one pass of eight instructions prints the formula's digit and shifts A by three bits |
| Day17Part2.ShrThree | day17/src/part2.rs:25 | `a >> 3 == a / 8` |
| Day17Part2.PrintedLast | day17/src/part2.rs:20-27 | a one-octal-digit A prints one number |
| Day17Part2.PrintedMore | day17/src/part2.rs:20-27 | a longer A prints its first formula digit, then what `a / 8` prints |
| Day17Part2.DecompiledRun | day17/src/part2.rs:20-27 | the decompiled program halts with A = 0 after printing one formula digit per octal digit of A |
| Day17Part2.ShrAdd | day17/src/part2.rs:41 | shifting by `j + k` is shifting by `j` then by `k` |
| Day17Part2.DigitsShift | day17/src/part2.rs:39-46 | after the first, the formula's digits for `a` are those for `a >> 3` |
| Day17Part2.PrintedIsDigits | day17/src/part2.rs:39-46 | what the program prints is the formula's digits, as many as A has octal digits |
| Day17Part2.FoundPrintsItself | day17/src/part2.rs:11-63 | when the answer has as many octal digits as the program has numbers, running the decompiled program from it prints the program |
| Day19.StartingWith | day19/src/main.rs:16-22 | the list filed under a letter holds only non-empty patterns |
| Day19.StartingWithCounts | day19/src/main.rs:16-22 | each pattern is filed under a letter exactly as often as it occurs in the input, when it starts with that letter, and never otherwise |
| Day19.StartingWithMembers | day19/src/main.rs:16-22 | the patterns filed under `c` are exactly the input patterns whose first letter is `c` |
| Day19.TableWellFormed | day19/src/main.rs:17 | every pattern in the finished table is non-empty, which `lookup` relies on to make progress |
| Day19.MissingKey | day19/src/main.rs:43-58 | a letter with no table entry has no pattern starting with it, so returning 0 loses no layout |
| Day19.StartingWithAppend | day19/src/main.rs:18-21 | adding a pattern appends it to its letter's list and leaves the other letters' lists alone |
| Day19.FirstsAppend | day19/src/main.rs:17-21 | adding a pattern adds its first letter to the table's keys and nothing else |
| Day19.TableAppend | day19/src/main.rs:18-21 | one step of the loop: `and_modify` pushes onto an existing entry, `or_insert` creates a one-pattern entry |
| Day19.BuildTable | day19/src/main.rs:15-22 | the loop over the patterns builds the table mapping each first letter to its patterns in input order |
| Day19.Prefixed | day19/src/main.rs:48-50 | putting pattern `k` in front of each layout of the rest keeps their number and puts `k` first in each |
| Day19.LookupCountsLayouts | day19/src/main.rs:37-59 | `lookup` on the table of `patterns` returns the number of distinct ways to write the design as a sequence of patterns |
| Day19.SumCountsLayouts | day19/src/main.rs:44-55 | the sum over the patterns filed under the design's first letter counts the layouts that start with each of them |
| Day19.LayoutsSound | day19/src/main.rs:39-50 | every layout counted concatenates to the design |
| Day19.LayoutsFromSound | day19/src/main.rs:46-53 | every layout counted from the patterns at index `k` on concatenates to the design |
| Day19.LayoutsComplete | day19/src/main.rs:37-59 | every way of writing the design as patterns is counted |
| Day19.LayoutsFromComplete | day19/src/main.rs:44-55 | a layout whose first pattern has index `k` or more is among those counted from `k` |
| Day19.LayoutsFromHeads | day19/src/main.rs:44-55 | the layouts counted from index `k` all start with a pattern of index `k` or more |
| Day19.PrefixedDistinct | day19/src/main.rs:48-50 | putting the same pattern in front of distinct layouts keeps them distinct |
| Day19.LayoutsDistinct | day19/src/main.rs:37-59 | no layout is counted twice |
| Day19.LayoutsFromDistinct | day19/src/main.rs:44-55 | the layouts counted from index `k` are pairwise distinct |
| Day19.Possible | day19/src/main.rs:26 | `lookup` is positive exactly when the design can be written as a sequence of patterns |
| Day19.Part1AtMostPart2 | day19/src/main.rs:24-34 | the part one count is at most the part two sum and at most the number of designs |
| Day19.Part1Counts | day19/src/main.rs:24-27 | part one counts the designs that can be laid out |
| Day19.Part2Counts | day19/src/main.rs:30-33 | part two is the total number of layouts over all designs |
| Day19.Part1 | day19/src/main.rs:24-28 | part one counts at most one per design |
| Day19.Part2 | day19/src/main.rs:30-34 | part two is zero exactly when `lookup` finds no layout for any design |
| Day20.Costed | day20/src/main.rs:111-112 | a point is kept, at cost 1, exactly when it is one of the given points and not a wall |
| Day20.NeighboursSpec | day20/src/main.rs:108-114 | the neighbours of `p` are exactly the open cells one step away from it, each at cost 1 |
| Day20.ManhattanTriangle | day20/src/main.rs:78 | the Manhattan distance satisfies the triangle inequality |
| Day20.HeuristicConsistent | day20/src/main.rs:75-80 | the heuristic of `search_path` never drops by more than the cost of a step, so the A* search it feeds is exact |
| Day20.ParseLine | day20/src/main.rs:127-135 | scanning one line puts a wall at each of its `#` and records its last `S` and `E` |
| Day20.Parse | day20/src/main.rs:116-138 | the grid has one row per line and the first line's width, a wall exactly at every `#`, and the start and end are the last `S` and `E` (or `(0, 0)`) |
| Day20.CorridorSides | day20/src/main.rs:145-146 | on a corridor, an open cell next to a path cell is the cell before or after it |
| Day20.NotYetEnd | day20/src/main.rs:144 | while the walk has not reached the end, the corridor goes on |
| Day20.IndexOf | day20/src/main.rs:147 | gives a position on the path holding the point |
| Day20.IndexOfDistinct | day20/src/main.rs:147 | on a path without repeats, a point's position is the one it was found at |
| Day20.GetDistances | day20/src/main.rs:140-153 | on a corridor every path cell gets its place on the path as its distance and every other cell stays `None` |
| Day20.Advance | day20/src/main.rs:144-151 | one pass of the outer loop labels the next path cell and moves there |
| Day20.TakeStep | day20/src/main.rs:145-150 | of the neighbours, only the next path cell is still unlabelled; it gets the current distance plus one |
| Day20.Visit | day20/src/main.rs:146-149 | one neighbour: an unlabelled one is labelled and becomes current, a labelled one changes nothing |
| Day20.SurroundingsSpec | day20/src/main.rs:186-196 | the surroundings are exactly the points `delta_row` rows and `delta_col` columns away, so at Manhattan distance `radius` |
| Day20.SurroundingsHas | day20/src/main.rs:186-196 | every such point is among the surroundings |
| Day20.CellsSpec | day20/src/main.rs:158 | the cells iterated are exactly the in-bounds points |
| Day20.CountedStart | day20/src/main.rs:156 | before the loops nothing is counted |
| Day20.CountedNextRadius | day20/src/main.rs:161-162 | finishing the `delta_row` loop of one radius is starting the next radius |
| Day20.CountedEnd | day20/src/main.rs:161 | after radius 20 the counted cells are all the cheats from `p` |
| Day20.CountedStep | day20/src/main.rs:162-179 | one `delta_row` adds its saving options, none counted before, so the count grows by their number |
| Day20.CountedAt | day20/src/main.rs:162-179 | a cell is counted after a `delta_row` exactly when it was counted before or is one of its saving options, never both |
| Day20.DisjointUnionCard | day20/src/main.rs:176 | counting two disjoint sets one after the other counts their union |
| Day20.SavingAdd | day20/src/main.rs:175-177 | one more option adds one to the count exactly when it saves `100 + radius` |
| Day20.CorridorDistances | day20/src/main.rs:157-175 | after `get_distances`, every open cell holds its place on the path, so both `unwrap` calls succeed |
| Day20.CountSaving | day20/src/main.rs:173-178 | the loop over the options counts those that save at least `100 + radius` |
| Day20.SavingStep | day20/src/main.rs:173-178 | taking one option out of those left adds one to the count exactly when it saves enough |
| Day20.CountFrom | day20/src/main.rs:161-180 | the loops over radius and `delta_row` count the cheats from `p` |
| Day20.Options | day20/src/main.rs:164-172 | the options are exactly the surroundings inside the grid that are not walls |
| Day20.CountRadius | day20/src/main.rs:162-179 | the `delta_row` loop counts the cheats of that radius |
| Day20.CountDelta | day20/src/main.rs:163-178 | one `delta_row` counts its saving options |
| Day20.Part2 | day20/src/main.rs:155-183 | on a corridor, `part2` returns the number of cheats summed over all open cells |
| Day20.CountCheats | day20/src/main.rs:158-182 | given the distances, the loop over the open cells adds up the cheats from each |
| Day20.CandidatesSpec | day20/src/main.rs:36-59 | the grids part one searches again are exactly the track with one wall next to an open cell made empty, each differing from the track in that one cell |
| Day20.ClearedDiffers | day20/src/main.rs:55-56 | clearing a wall changes that cell and no other |
| Day20.CandidatesDistinct | day20/src/main.rs:52-59 | distinct removable walls give distinct grids, so the set holds one grid per wall |
| Day21.KeyAt | day21/src/main.rs:282-294 | a position that holds a numeric button is that button's position |
| Day21.KeyAtPos | day21/src/main.rs:282-294 | every numeric button is found at its own position, so positions name buttons one to one |
| Day21.DirAt | day21/src/main.rs:228-234 | a position that holds a directional button is that button's position |
| Day21.DirAtPos | day21/src/main.rs:228-234 | every directional button is found at its own position |
| Day21.Opposite | day21/src/main.rs:244-262 | the opposite of an arrow is an arrow that moves by the negated offset |
| Day21.WithUnitCost | day21/src/main.rs:152-174 | each adjacent button is listed once, in order, at cost 1 |
| Day21.DirectionalAdjacentGeometry | day21/src/main.rs:143-151 | the listed neighbours of a directional button are exactly the buttons one step away on the pad |
| Day21.KeypadAdjacentGeometry | day21/src/main.rs:157-171 | the listed neighbours of a numeric button are exactly the buttons one step away on the pad |
| Day21.DirectionalMove | day21/src/main.rs:245-262 | `try_move_to` gives an arrow exactly for neighbouring buttons, and that arrow leads from the first to the second |
| Day21.KeypadMove | day21/src/main.rs:297-331 | `try_move_to` on the numeric pad gives an arrow exactly for neighbouring buttons |
| Day21.DeltaInjective | day21/src/main.rs:228-234 | distinct arrows move by distinct offsets |
| Day21.SameStep | day21/src/main.rs:245-262 | two arrows that take a position to the same place are the same arrow |
| Day21.KeypadMoveGeometry | day21/src/main.rs:297-331 | the arrow `try_move_to` names on the numeric pad leads from the first button to the second |
| Day21.StepBack | day21/src/main.rs:245-262 | the opposite arrow undoes a step |
| Day21.DirectionalSymmetric | day21/src/main.rs:143-151 | adjacency on the directional pad goes both ways |
| Day21.DirectionalOpposite | day21/src/main.rs:245-262 | on the directional pad the move back is the opposite arrow |
| Day21.KeypadSymmetric | day21/src/main.rs:157-171 | adjacency on the numeric pad goes both ways |
| Day21.KeypadOpposite | day21/src/main.rs:297-331 | on the numeric pad the move back is the opposite arrow |
| Day21.ButtonOfSpec | day21/src/main.rs:348-367 | `try_from` accepts exactly the characters `0`…`9` and `A`, gives back the button written that way, and otherwise fails with "encountered" and the character |
| Day21.SymbolRoundTrip | day21/src/main.rs:348-367 | reading the character a button is written as gives the button back |
| Day21.Parse | day21/src/main.rs:207-212 | a parsed code has one button per character |
| Day21.ParseSpec | day21/src/main.rs:207-212 | parsing succeeds exactly when every character names a button, and then each button is the one its character names |
| Day21.ParseExamples | day21/src/main.rs:385-390 | "029A" parses to zero, two, nine, `A`; a line with another character does not parse |
| Day21.Digit | day21/src/main.rs:27-39 | every button but `A` stands for a digit, the one it is written as |
| Day21.DigitText | day21/src/main.rs:26-44 | the digits of a code are decimal digits |
| Day21.CodeValue029A | day21/src/main.rs:375 | the numeric part of 029A is 29 |
| Day21.CodeValue980A | day21/src/main.rs:376 | the numeric part of 980A is 980 |
| Day21.CodeValueStep | day21/src/main.rs:40-43 | reading one more button from the right puts its digit in front of those read so far, at the next place value |
| Day21.GetNum | day21/src/main.rs:23-46 | `get_num` is the decimal number the digit buttons spell, `A` ignored |
| Day21.UnitStep | day21/src/main.rs:245-262 | an arrow step moves one cell |
| Day21.KeyStepIsMove | day21/src/main.rs:297-331 | pressing an arrow moves the arm from `a` to `b` exactly when `try_move_to(a, b)` names that arrow |
| Day21.TypedAppend | day21/src/main.rs:187-196 | pressing one sequence then another runs the first and continues the second from where it ended |
| Day21.PressAppend | day21/src/main.rs:193 | the same when the first press is `A` |
| Day21.ThenPressed | day21/src/main.rs:193 | a press in front commutes with continuing the run |
| Day21.CoversPrefix | day21/src/main.rs:183-186 | the moves a code needs include those its prefixes need, from the same buttons |
| Day21.ExtendMembers | day21/src/main.rs:187-196 | the `cartesian_product` step yields exactly an earlier path, then a path to the target, then `A` |
| Day21.ExtendSize | day21/src/main.rs:187-196 | it yields as many paths as the product of the two counts |
| Day21.ExtendSingle | day21/src/main.rs:187-196 | from a single path, one extension per option in order |
| Day21.ExtendByOne | day21/src/main.rs:187-196 | with a single option, each path extended by it in order |
| Day21.CandidatesPrefixStep | day21/src/main.rs:183-198 | one more target extends the paths built for the prefix by the paths to that target |
| Day21.CandidatesType | day21/src/main.rs:177-199 | given a table of genuine walks, every sequence built types exactly the code on the numeric pad and ends over its last button |
| Day21.WalkThenPress | day21/src/main.rs:192-193 | a walk to the target followed by `A` types the target next |
| Day21.TypeNext | day21/src/main.rs:186-199 | a run typing all but the last button, then a walk to the last button and `A`, types the whole code and rests on its last button |
| Day21.WalkIn | day21/src/main.rs:186-193 | in a table of genuine walks, each listed path leads from its start to its target without typing |
| Day21.CandidatesNonEmpty | day21/src/main.rs:182-198 | with at least one path per move, some sequence is built |
| Day21.MinLengthSpec | day21/src/main.rs:201 | the least length is a lower bound attained by some path |
| Day21.Keep | day21/src/main.rs:200-202 | exactly the paths of the given length are kept |
| Day21.ShortestSpec | day21/src/main.rs:200-204 | `min_set_by` keeps exactly the paths no other path is shorter than, and keeps some when there are any |
| Day21.GetInputSequence | day21/src/main.rs:177-205 | the loop builds every combination of listed paths, target by target, and returns the shortest |
| Day21.MinCostSpec | day21/src/main.rs:72-84 | the cheapest of some sequences costs no more than any of them and as much as one of them |
| Day21.CostIsMinimum | day21/src/main.rs:72-84 | below the first robot a move costs the cheapest listed sequence for it, one level up |
| Day21.CostPositive | day21/src/main.rs:66-85 | every move costs at least one press when every listed sequence ends in `A` |
| Day21.SeqCostAtLeast | day21/src/main.rs:76-81 | typing a sequence through more robots takes at least one press per button |
| Day21.ComputeLen | day21/src/main.rs:66-85 | `compute_len` is the first listed sequence's length at depth 1 and the cheapest listed sequence costed one level up otherwise |
| Day21.Cheapest | day21/src/main.rs:72-84 | the loop keeping `optimal` ends with the cheapest of the listed sequences |
| Day21.SequenceLen | day21/src/main.rs:55-81 | the inner loop adds up the cost of each consecutive pair starting from `A` |
| Day21.ShortestCandidates | day21/src/main.rs:51 | the first robot always has some shortest sequence to try |
| Day21.Solve | day21/src/main.rs:48-64 | `solve` is the code's numeric part times the fewest top presses over the shortest first-robot sequences |
| Day21.FewestSpec | day21/src/main.rs:53-62 | the fewest presses are attained by some shortest first-robot sequence and no such sequence needs fewer |
| Day21.Rendered | day21/src/main.rs:218-279 | a sequence is shown one character per button, as the button's glyph |
| Day21.WalkStep | day21/src/main.rs:177-199 | an arrow and then a walk is a longer walk |
| Day21.Walk2369 | day21/src/main.rs:404 | `>^^` leads from 2 to 9 |
| Day21.Walk2569 | day21/src/main.rs:404 | `^>^` leads from 2 to 9 |
| Day21.Walk2589 | day21/src/main.rs:404 | `^^>` leads from 2 to 9 |
| Day21.WalksOthers029A | day21/src/main.rs:404 | `<` leads from `A` to 0, `^` from 0 to 2 and `vvv` from 9 to `A` |
| Day21.Walk029A | day21/src/main.rs:394-406 | every path in the 029A table leads between its buttons |
| Day21.Table029AWalks | day21/src/main.rs:394-406 | the 029A table holds genuine walks |
| Day21.Covers029A | day21/src/main.rs:394-406 | the 029A table lists every move 029A needs |
| Day21.Candidates029AFirst | day21/src/main.rs:394-406 | the first two targets of 029A give the single sequence `<A^A` |
| Day21.Candidates029AThird | day21/src/main.rs:394-406 | the first three give the three ways of reaching 9 |
| Day21.Candidates029A | day21/src/main.rs:394-406 | all of 029A gives the three sequences of the example |
| Day21.ShortestEqualLengths | day21/src/main.rs:200-202 | paths of one length are all kept |
| Day21.Shortest029A | day21/src/main.rs:394-406 | all three 029A sequences are equally short |
| Day21.Rendered029A | day21/src/main.rs:404 | they are shown as "<A^A>^^AvvvA", "<A^A^>^AvvvA" and "<A^A^^>AvvvA" |
| Day21.Example029A | day21/src/main.rs:392-406 | for 029A the shortest first-robot sequences are exactly the three of the example, and each types 029A |
| Day22.ModulusIsPow2 | day22/src/main.rs:48-53 | the pruning modulus 16777216 is 2^24, and the shifts by 6 and 11 multiply by 64 and 2048 |
| Day22.NextSecretSpec | day22/src/main.rs:48-53 | every evolved secret is below 2^24, and the pruning after the right shift never removes anything |
| Day22.NextSecret | day22/src/main.rs:47-56 | each evolved secret is below 2^24 |
| Day22.FirstMixLow24 | day22/src/main.rs:48-49 | the first mixing step, pruned, depends only on the low 24 bits of the secret |
| Day22.ShiftLow24 | day22/src/main.rs:48 | the `u64` left shift by 6, pruned, depends only on the low 24 bits |
| Day22.NextSecretLow24 | day22/src/main.rs:47-56 | the next secret depends only on the low 24 bits of the current one, so the bits the `u64` shift loses never matter |
| Day22.SecretBound | day22/src/main.rs:53-55 | every secret after the first is below 2^24 |
| Day22.Seed.constructor | day22/src/main.rs:42 | a seed holds the given secret |
| Day22.Seed.Next | day22/src/main.rs:47-56 | `next` replaces the secret by the evolved one and yields it, never `None` |
| Day22.Seed.Nth | day22/src/main.rs:13 | `nth(n)` advances `n + 1` times and yields the secret reached |
| Day22.Part1 | day22/src/main.rs:11-14 | part one adds up the 2000th evolved secret of every buyer |
| Day22.Items | day22/src/main.rs:95-101 | the iterator yields one item per step |
| Day22.Changes | day22/src/main.rs:95-101 | the intended items, one per step |
| Day22.ItemsFromInitialPrice | day22/src/main.rs:95-101 | started from the initial price, item `i` is the change from price `i` to price `i + 1` and that price, the change within -9..=9 and the price within 0..=9 |
| Day22.Differences.New | day22/src/main.rs:105-110 | as written, `new` starts one secret ahead and remembers the first evolved price as the previous digit |
| Day22.Differences.Start | day22/src/main.rs:105-110 | reading the digit before advancing remembers the initial price as the previous digit |
| Day22.Differences.Next | day22/src/main.rs:95-101 | `next` yields the current digit minus the previous one and the current digit, then remembers the digit and advances the secret |
| Day22.Differences.Take | day22/src/main.rs:115-116 | `take(n)` yields the first `n` items of the iterator |
| Day22.AsWrittenFirstChange | day22/src/main.rs:105-110 | with `new` as written the first change is always 0, and every later item is the true price change |
| Day22.NextSecretOfOne | day22/src/main.rs:47-56 | the secret after 1 is 137283 |
| Day22.MixOne | day22/src/main.rs:48-49 | for secret 1 the first mix gives 65 |
| Day22.MixTwo | day22/src/main.rs:50-51 | then the second mix gives 67 |
| Day22.MixThree | day22/src/main.rs:52-53 | then the third mix gives 137283 |
| Day22.AsWrittenDiffers | day22/src/main.rs:105-110 | for secret 1 the first price change is 2, but `new` as written yields 0 |
| Day22.FirstWindows | day22/src/main.rs:117-122 | the window fold with `or_insert` maps exactly the four-change patterns that occur, each to the price at the end of its first occurrence |
| Day22.Part2 | day22/src/main.rs:113-123 | `part2` as written: each pattern among the items `Differences::new` yields, whose first change is always 0, maps to the price when it first appears |
| Day22.Part2Intended | day22/src/main.rs:113-123 | with the first change taken from the starting price, each pattern among a buyer's first 2000 price changes maps to the price when it first appears |
| Day22.WindowsAgreeAfterFirst | day22/src/main.rs:105-123 | every window of four changes that starts after the first item is the same as written and corrected, so only patterns that use the first change differ |
| Day24.AllWiresHas | day24/src/main.rs:28-32 | every wire of every gate is collected |
| Day24.AllWiresFrom | day24/src/main.rs:28-32 | every collected wire belongs to some gate |
| Day24.FireKnown | day24/src/main.rs:41-58 | a gate changes no wire set and, when both inputs are known, adds its output to the known wires; it never forgets one |
| Day24.Fire | day24/src/main.rs:41-58 | a gate's turn changes no wire set |
| Day24.Sweep | day24/src/main.rs:40-59 | a pass over the gates keeps the same set of wires |
| Day24.CoversPrefix | day24/src/main.rs:40 | the wires named by the first `n` gates are among those named by all of them |
| Day24.SweepGrows | day24/src/main.rs:40-59 | a pass never forgets a known wire |
| Day24.SweepKnownDepends | day24/src/main.rs:41-45 | which wires a pass makes known depends only on which were known before it |
| Day24.Sweeps | day24/src/main.rs:39-60 | repeated passes keep the same set of wires |
| Day24.StuckForever | day24/src/main.rs:39-60 | once a pass learns nothing new, no later pass does, so the `while` loop never ends |
| Day24.FewerUnknown | day24/src/main.rs:39 | a pass that learns something leaves fewer unknown wires |
| Day24.Settle | day24/src/main.rs:39-60 | when the loop ends every wire is known and the set of wires is unchanged |
| Day24.SettleDiverges | day24/src/main.rs:39-60 | the loop gives up exactly when no number of passes knows every wire; otherwise its result is the state after some number of passes |
| Day24.StuckNeverComplete | day24/src/main.rs:39-60 | a pass that learns nothing while some wire is unknown means the loop runs forever |
| Day24.NeverCompleteShift | day24/src/main.rs:39-60 | the loop runs forever from a state exactly when it does from the state after one more pass |
| Day24.ReachedShift | day24/src/main.rs:39-60 | a state reached after one pass and then `k` more is reached from the start |
| Day24.SweepsShift | day24/src/main.rs:39-60 | `k + 1` passes are one pass followed by `k` |
| Day24.SweepsShiftAt | day24/src/main.rs:39-60 | the same for one given `k` |
| Day24.NameLeTotal | day24/src/main.rs:65 | any two names compare one way or the other |
| Day24.NameLeTransitive | day24/src/main.rs:65 | name order is transitive |
| Day24.NameLeAntisymmetric | day24/src/main.rs:65 | two names each at most the other are equal |
| Day24.NameOrder | day24/src/main.rs:65 | name order is a total order on any set of names |
| Day24.Listing | day24/src/main.rs:61-64 | the z wires collected are each listed once |
| Day24.ZOrderSpec | day24/src/main.rs:61-65 | after `sort` the z wires are in name order, each exactly once |
| Day24.ZValueBound | day24/src/main.rs:66-74 | the number spelled by `k` wires is below `2^k` |
| Day24.ZValueBit | day24/src/main.rs:66-74 | bit `k` of the result is the value of the `k`-th z wire in name order |
| Day24.HighBitsKeepLow | day24/src/main.rs:72 | adding a bit at place `n` leaves the bits below `n` alone |
| Day24.Pow2Split | day24/src/main.rs:72 | `2^n` is `2^k` times an even number when `k < n` |
| Day24.EvenMultipleKeepsBit | day24/src/main.rs:72 | adding an even multiple of `2^k` leaves bit `k` alone |
| Day24.MulRearrange | day24/src/main.rs:72 | the products regroup |
| Day24.DivAddMultiple | day24/src/main.rs:72 | adding `c` multiples of `p` adds `c` to the quotient by `p` |
| Day24.ZOrderWires | day24/src/main.rs:61-64 | the listed z wires are wires of the settled state |
| Day24.InitialSpec | day24/src/main.rs:28-38 | the starting state holds exactly the input wires and the gates' wires; it knows exactly the inputs, at their given values |
| Day24.SettledValue | day24/src/main.rs:61-74 | with at most 64 z wires the result fits in 64 bits and its bits are the z wires in name order, lowest first |
| Day24.InitialCovers | day24/src/main.rs:28-38 | the starting state names every wire of every gate, so every `unwrap` of a lookup succeeds |
| Day24.GateOutputs | day24/src/main.rs:28-32 | the first `collect` sets every wire the gates name to unknown |
| Day24.InitialOutputs | day24/src/main.rs:28-38 | the two steps build the starting state |
| Day24.SetInputs | day24/src/main.rs:33-38 | the `entry` loop sets every input wire to its value, present before or not, and leaves the other wires alone |
| Day24.SetAll | day24/src/main.rs:33-38 | with no input left, every input wire is set |
| Day24.SetOne | day24/src/main.rs:34-37 | setting one more input wire keeps the loop's invariant |
| Day24.InitialIs | day24/src/main.rs:28-38 | a map of the right wires and values is the starting state |
| Day24.SweepOnce | day24/src/main.rs:40-59 | the `for gate` loop performs one pass |
| Day24.SortedZ | day24/src/main.rs:61-65 | `filter`, `collect` and `sort` give the z wires in name order |
| Day24.ZStep | day24/src/main.rs:61-64 | looking at one more wire adds it to the z wires exactly when its name starts with `z` |
| Day24.Simulate | day24/src/main.rs:27-75 | `simulate` returns the number the z wires spell, or reports where the source loops forever or overflows the shift |
| Day24.SettleLoop | day24/src/main.rs:39-60 | the `while` loop reaches the settled state, or reports the case in which it would run forever |
| Day24.SumBits | day24/src/main.rs:66-74 | the bit loop adds `bit(z_k) · 2^k` over the z wires |
| Day24.ZValueSnoc | day24/src/main.rs:72 | one more wire adds its bit at the next place |
| Day25.ColumnsFit | day25/src/main.rs:36 | the zipped columns all fit exactly when every key height plus lock height is at most 5 |
| Day25.FitsIn | day25/src/main.rs:35-37 | `fits_in` holds exactly when `key[i] + lock[i] <= 5` in each of the five columns |
| Day25.Cell | day25/src/main.rs:88 | a cell parses exactly when it is `#` or `.`, `#` as 1 and `.` as 0 |
| Day25.Cells | day25/src/main.rs:88 | a line parses exactly when every character is a cell, each to its value |
| Day25.FirstBad | day25/src/main.rs:88 | a line that does not parse has a first character that is not a cell |
| Day25.Rows | day25/src/main.rs:86-92 | the five inner rows parse exactly when each is five cells, and then each row holds its cells' values |
| Day25.ColumnSumCounts | day25/src/main.rs:94-98 | adding up a column's parsed cells counts its `#` cells |
| Day25.HashCountBound | day25/src/main.rs:86-92 | a column has at most one `#` per row |
| Day25.HeightsOfSpec | day25/src/main.rs:85-100 | `parse_height` fails exactly on malformed inner rows; otherwise each height is the number of `#` in its column, within 0..=5 |
| Day25.ColumnSumSnoc | day25/src/main.rs:94-96 | one more row adds its cell to the column's sum |
| Day25.ParseHeight | day25/src/main.rs:85-100 | the loop adding each row into `height_info` gives the column counts |
| Day25.Schematic | day25/src/main.rs:59-83 | a schematic is a key exactly when framed by `.....` above and `#####` below, a lock exactly when framed the other way round, with well-formed inner rows; its heights are those of the inner rows |
| Day25.Classify | day25/src/main.rs:60-67 | the loop splits the schematics into the keys and the locks, each in input order |
| Day25.ClassifyCounts | day25/src/main.rs:62-67 | every schematic lands in exactly one of the two lists |
| Day25.ClassifyPartitions | day25/src/main.rs:62-67 | between them the two lists hold each schematic's heights exactly once |
| Day25.KeyDataSnoc | day25/src/main.rs:64 | pushing a key appends its heights |
| Day25.LockDataSnoc | day25/src/main.rs:65 | pushing a lock appends its heights |
| Day25.ClassifyAppend | day25/src/main.rs:62-67 | splitting a concatenation concatenates the splits, so input order is kept |
| Day25.FitCountByLockSnocKey | day25/src/main.rs:15-19 | one more key adds the locks it fits to the count taken lock by lock |
| Day25.FitCountSymmetric | day25/src/main.rs:14-19 | counting the fitting pairs key by key or lock by lock gives the same number, so the swapped names in `main` do not matter |
| Day25.FitCountByLockNoKeys | day25/src/main.rs:15-19 | with no keys nothing fits |
| Day25.FitCountBound | day25/src/main.rs:15-19 | no more pairs fit than there are pairs |
| Day25.FitsForBound | day25/src/main.rs:18 | a key fits at most every lock |
| Day25.ParseAll | day25/src/main.rs:58-59 | parsing all schematics succeeds exactly when each one parses, giving each one's result in order |
| Day25.Part1Bound | day25/src/main.rs:14-19 | the answer is at most the number of keys times the number of locks |
| Day25.Part1 | day25/src/main.rs:12-21 | there is an answer exactly when every schematic parses |
| Sorting.Insert | day01/src/main.rs:39-42 | inserting adds exactly the one element to the multiset |
| Sorting.Sort | day01/src/main.rs:39-42 | the sorted copy is a permutation of the input, of the same length |
| Sorting.InsertSorted | day01/src/main.rs:39-42 | under a total, transitive order, inserting into a sorted list keeps it sorted |
| Sorting.SortSorted | day01/src/main.rs:39-42 | under a total, transitive order, the result is sorted |
| Sorting.SortOfSorted | day05/src/main.rs:50-52 | sorting an already sorted list leaves it unchanged |
| Sorting.SortedUnique | day01/src/main.rs:39-42 | under an antisymmetric order two sorted permutations of each other are equal |
| Sorting.SortDependsOnMultiset | day01/src/main.rs:39-42 | under a total order, the sorted copy depends only on the multiset of the input |
| Decimal.ToDecimal | day17/src/program.rs:113-119 | `to_string` of a number is a non-empty string of decimal digits |
| Decimal.DecimalRoundTrip | day07/src/main.rs:72-74 | parsing a number's decimal text gives the number back |
| Decimal.FromDecimalAppend | day07/src/main.rs:72-74 | the value of two digit strings joined is the first times 10 to the length of the second, plus the second |
| Sums.SeqSumZero | day01/src/main.rs:52-55 | a sum of non-negative terms is 0 exactly when every term is 0 |
| Sums.SetSumRemove | day11/src/main.rs:20-29 | a sum over a set is one member's term plus the sum over the rest |
| Sums.SetSumCongruent | day11/src/main.rs:20-29 | sums over the same set of terms that agree on it are equal |
| Bits.XorCommutes | day17/src/program.rs:66 | exclusive or is commutative |
| Bits.XorAssociates | day17/src/part2.rs:39-46 | exclusive or is associative |
| Bits.XorBound | day17/src/program.rs:66 | the exclusive or of two numbers below `2^n` is below `2^n` |
| Bits.XorDisjoint | day22/src/main.rs:48-53 | exclusive or with a number shifted past the other's bits adds the two |
| Bits.XorMod | day22/src/main.rs:48-53 | the low `n` bits of an exclusive or depend only on the low `n` bits of its operands, so reducing modulo `2^24` before or after agrees |

## Left out

- Day 13 (`day13/src/main.rs`) is not part of this model: it solves its equations in `f64` floating point.
- Day 18 (`day18/src/main.rs`) is not part of this model: it is a wrapper around a library path search whose only own logic is a Manhattan distance.
- Day 23 (`day23/src/main.rs`) is not part of this model: it is built on a graph library and a clique-finding module that is not in the repository.
- `day17/src/part1.rs` and every `main`, `print_*` and `Display`/`Debug` function are not modelled, because they only read input and print. The Debug glyph tables of day 15 are the exception.
- The nom and regex parsers are not modelled. Solvers start from already-split lines or already-parsed values. This covers:
  - day 3's instruction parser;
  - day 5's rules and updates;
  - day 7's equations;
  - day 14's robots;
  - `day15/src/parse.rs`;
  - `day17/src/parser.rs` and `day17/src/main.rs:183-203`;
  - day 19's towels;
  - day 24's gates (`day24/src/main.rs:93-142`);
  - day 25's combinator layer.
- The library path searches are not modelled. These are `dijkstra`, `astar` and `astar_bag` (`day16/src/main.rs:13-29`, `day20/src/main.rs:74-83`, `day21/src/main.rs:95-141`).
  - Only the successor and heuristic functions handed to them are modelled, with their specifications.
  - Day 16's set of cells on best paths, which comes from `astar_bag`, is not modelled.
  - Day 20's part 1 (`day20/src/main.rs:36-59`) is modelled through its candidate grids and the heuristic. The shortest-path runs on each grid are not modelled.
  - Day 21's precomputed move tables are an input, with predicates saying what the searches guarantee about them.
- The `rayon` parallel code is not modelled:
  - day 6's part 2 loop count (`day06/src/main.rs:144-155`), whose single steps `PlaceObstacle` and `WalkGuard` are modelled;
  - day 14's `par_iter`;
  - day 20's chunked count (`day20/src/main.rs:60-71`);
  - day 22's per-buyer reduction (`day22/src/main.rs:11-36`). The per-chunk `or_insert` fold there makes its result depend on how rayon splits the work, and the cross-buyer sum and maximum of day 22's part 2 are not modelled.
- The `#[cached]` memoisation of days 11, 14, 19 and 21 is not modelled. Those functions are plain recursion.
- Day 14's `(0..usize::MAX).find(..)` driver at `day14/src/main.rs:42` is not modelled; only its no-two-robots-together predicate is.
- Day 15's `BiggerCell` grid of the wide warehouse is modelled only as far as its glyphs.
- Day 11's `main` collects the input stones into a `HashMap` with count 1 each, so repeated input stones collapse into one. The model starts from a count map and does not model that collection.
- Day 21's `format_seq` and `Display` are not modelled.
- Day 24: the source's `while` loop never ends when some wire can never be driven. `Day24.SettleLoop` and `Day24.Simulate` return `Diverges` there, and `Day24.SettleDiverges` proves that this happens exactly when no number of sweeps completes. More than 64 `z` wires make the debug-mode `<<` panic, which is modelled as `Overflow`.
- Days 17 and 6: the day 17 computers and searches can run for ever, so they run on a budget of `fuel` rounds and report `GaveUp` when it runs out. Day 6 needs no budget, because its guard has finitely many states; a guard that spins in place for ever is reported as `None`.
- Day03.Program.Run: sums in unbounded integers; the source's `i32` products and sum can overflow, which the model does not capture.
- Day07.Part1Spec: the `u64` products, sums and concatenations are unbounded here; the source overflows or panics in `parse` on values past `u64::MAX`.
- Day05.PartSumsAdd: the `u64` sum of middle pages is unbounded here.
- Day01.Day01.Solve: the `usize` sums are unbounded here.
- Day11.StepShape: `x * 2024` is unbounded here; the source's `usize` product can overflow for large stones.
- Day11.Blink: the counts and the number of stones are unbounded here, and so are those of `Day11.BlinkOnce`, `Day11.BumpAllValue` and `Day11.BumpAllTotal`. The source adds counts with `*e += count` (`day11/src/main.rs:26`) and totals them with `.values().sum()` (`:31`), both in `usize`, so a count or total past 2^64 - 1 panics in a debug build and wraps in release. For example, blinking `{1: 2^63, 2: 2^63}` zero times already overflows the sum.
- Day01.Day01b.GetDifferences: the terms `l * count` are unbounded here, and so are the sums of `Day01.Day01b.Solve`, `Day01.Similarities` and `Day01.SolveIsPairScore`. The source multiplies (`day01/src/main.rs:89`) and sums (`:94`) in `usize`, which panics in a debug build and wraps in release. For example, two lines of `9223372036854775808 9223372036854775808` give terms of 2^64 each.
- Day04.XmasScoreSpec: the grid is assumed rectangular, here and in `Day04.XMasScoreSpec`. Both parts take their bounds from the last letter read (`day04/src/part1.rs:22` and `day04/src/part2.rs:21`), which is correct only when every line has the same length.
- Day06.ParseMap: every line is assumed as long as the first, because `Grid::from_vec` cuts the characters into rows of the first line's width. `\r` characters are not modelled.
- Day09.DiskLayout.CompactPart2: every file id from 0 up to the last one is assumed present. `find_next_block_to_move` unwraps a missing id, which panics.
- Day20.GetDistances: the track is assumed to be a single corridor from start to end. The source loops for ever at any other dead end.
- GridPoint.Add: coordinates and offsets are assumed to fit in `i32`. The source casts each `usize` coordinate with `as i32` and adds in `i32` (`aoc/src/point.rs:81-82`), so a coordinate past `i32::MAX` is truncated and a sum past `i32::MAX` overflows; `GridPoint.Sub` negates the offset (`aoc/src/point.rs:120`), which overflows for `i32::MIN`. The same holds for `GridPoint.Sub` and for the copies `Day12Point.Add`, `Day12Point.Sub`, `Day10Point.AddOwned` and `Day10Point.AddRef`.
- Day10.ClimbersSpec: the test `grid[p] - grid[next] == 1` (`day10/src/main.rs:58`) is modelled with release-mode `usize` wrap-around, under which a wrapped difference is never 1. A debug build panics instead when the neighbour is lower; that panic is not modelled.
- Day19.LookupCountsLayouts: the number of layouts is an unbounded integer here. The source adds the counts in `usize` (`day19/src/main.rs:55`), which overflows past 2^64 layouts, for example for a design of 93 `a`s over the patterns `a` and `aa`. `Day19.Part2Counts` has the same gap.
- Day19.Part2Counts: the total over all designs is unbounded here; the source's `usize` sum (`day19/src/main.rs:33`) can overflow, as for `Day19.LookupCountsLayouts`.
- Day21.GetNum: the number is unbounded here. The source's `result += n * x` and `x *= 10` (`day21/src/main.rs:41-42`) are `usize`, so a code of 20 or more digits panics in a debug build.
- Day21.Solve: the complexity is unbounded here; the source's `num * optiomal` (`day21/src/main.rs:63`) is a `usize` product that can overflow.
- Day09.ChecksumUpdate: the checksum is unbounded here, and so are `Day12.ValuePart1`, `Day12.ValuePart2` and `Day14.SafetyFactorSpec`. The source computes them in `usize`: the products `idx * id` of the checksum (`day09/src/main.rs:105`), the prices `area * fence length` and `corners * area` (`day12/src/main.rs:68` and `:142`) and the product of the four quadrant counts (`day14/src/main.rs:86`), each of which can overflow. The day 15 score is unbounded in the same way: its terms `100 * line + col` and their sum (`day15/src/main.rs:77-82`) are `usize`, here in `Day15.Part1Crates` and `Day15.ScoredCrates`.
- Day05.SortUpdate: the rule table need not be a total order, so the exact permutation the standard sort produces is not modelled. The model gives an insertion sort's result, with the permutation and the middle-page facts proved about it.

## Findings

| source | as written | input that shows it | evidently intended | confidence | as-written member | corrected member |
|---|---|---|---|---|---|---|
| day22/src/main.rs:105-110 | `Differences::new` reads the price from `s.0` after `s.next()` has already advanced `s`, so the first difference is always 0 | secret 1: the prices are 1 and then 3, so the first change should be 2, but it is reported as 0 | the first item is the new price minus the starting price | not executed | Day22.AsWrittenDiffers | Day22.Part2Intended |

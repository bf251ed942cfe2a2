# Advent of Code 2024 solvers, modelled in Dafny

The repository holds one Go program per puzzle day; each reads its puzzle input, computes the
two answers and prints them. This project models the solving logic of nineteen of those days,
one Dafny module per day, and proves what each answer means:

- `Day01` (day01.dfy): two columns of location IDs; total distance after sorting both, and similarity score.
- `Day02`: reports of levels; safe reports, and reports made safe by dropping one level.
- `Day03`: corrupted memory; the sum of `mul(a,b)` products, with `do()`/`don't()` switching in part 2.
- `Day04`: word search for XMAS in eight directions and for crossed MAS.
- `Day05`: page-ordering rules; correct updates, and incorrect ones reordered by swaps.
- `Day06`: a guard walking a grid, turning right at obstacles, and the cells it visits (a class whose fields the walk updates).
- `Day07`: equations made valid by `+`, `*` and digit concatenation, solved backwards.
- `Day08`: antinodes of antennas of one frequency, at one distance and along whole lines.
- `Day09`: a disk map compacted block by block and file by file, and its checksum.
- `Day10`: hiking trails on a height map; reachable summits and distinct trails.
- `Day11`: stones that change at every blink, counted with a memo class.
- `Day12`: garden regions found by breadth-first search; area, perimeter and number of sides.
- `Day13`: claw machines solved by Cramer's rule over the integers.
- `Day14`: robots moving on a wrapping grid and the quadrant safety factor.
- `Day15`: a robot pushing boxes in a warehouse, with single and double-width boxes (a class over the map).
- `Day18`: shortest path across a memory grid with fallen bytes.
- `Day19`: the number of ways to lay out a pattern from towels, with a shared memo.
- `Day22`: a 24-bit pseudo-random generator, prices and the best sequence of four price changes.
- `Day23`: triangles in a computer network, and a largest fully linked group grown one computer at a time.

Two modules model the parts of Go's standard library the solvers depend on. `GoLib`
(go_lib.dfy) models truncating `/` and `%`, `strings.Split`, `strings.Cut`,
`strings.CutPrefix`, `strings.HasPrefix`, `slices.Index`, base-10 `strconv.ParseInt` and
decimal formatting. `Sorting` (sorting.dfy) models `slices.Sort` on integers as the unique
ascending permutation of its input.

Go code that works step by step is modelled as methods with loops, proved against
specification functions. Go objects that update their fields are modelled as classes:
the guard of day 6, the blink cache of day 11, the warehouse of day 15, the memo of day 19
and the price cache of day 22. Pure helpers are modelled as functions. The puzzle input text
is a parameter everywhere; the embedded `input.txt`, the `main` functions and every
`fmt.Println` are not part of this model.

## Model

| member | source | states |
|---|---|---|
| Day01.ParseInputLine | day-1/main.go:15-26 | the pair is the 64-bit values of the first and the last space-separated field |
| Day01.ParseInputLineSpaces | day-1/main.go:15-26 | two numbers rendered with any run of one or more spaces between them parse back to the same pair, so the width of the gap does not matter |
| Day01.LeftColumn | day-1/main.go:28-36 | one first-column value per line |
| Day01.RightColumn | day-1/main.go:28-36 | one second-column value per line |
| Day01.GetLocationLists | day-1/main.go:28-36 | two lists as long as the line count; entry i of each is the matching half of line i's parsed pair |
| Day01.FindDistance | day-1/main.go:38-43 | the result is the absolute difference |
| Day01.FindDistanceProperties | day-1/main.go:38-43 | the distance is symmetric, never negative, and zero exactly when the two locations are equal |
| Day01.SumDistances | day-1/main.go:50-53 | a sum of distances is never negative |
| Day01.TotalDistanceBetweenLocations | day-1/main.go:45-55 | part 1 of the input equals the total distance of the two parsed columns, each sorted |
| Day01.TotalDistanceOfLists | day-1/main.go:46-54 | sorting both lists in place and summing same-index distances gives the total distance |
| Day01.TotalDistancePermutation | day-1/main.go:45-55 | reordering either column leaves part 1 unchanged |
| Day01.SumDistancesZero | day-1/main.go:50-53 | the summed distance of paired lists is zero exactly when the lists are equal |
| Day01.TotalDistanceZero | day-1/main.go:45-55 | part 1 is zero exactly when the two columns hold the same values with the same multiplicities |
| Day01.CountElements | day-1/main.go:57-65 | the count is the multiplicity of the element; it is at most the length, and zero exactly when the element is absent |
| Day01.SimilarityScoresBetweenLocations | day-1/main.go:67-75 | part 2 of the input is the sum over the first column of each value times its count in the second column |
| Day01.SimilarityOfLists | day-1/main.go:69-74 | the counting loop computes that similarity sum |
| Day01.SimilarityAppend | day-1/main.go:67-75 | the similarity of a concatenated first column is the sum of the similarities of its parts |
| Day01.SimilarityPermutation | day-1/main.go:67-75 | reordering either column leaves part 2 unchanged |
| Day02.LineValues | day-2/main.go:13-25 | a line has one value per space-separated field, and at least one |
| Day02.FieldValues | day-2/main.go:15-23 | one value per field |
| Day02.FieldValuesAt | day-2/main.go:16-22 | value i is the 32-bit value of field i, or 0 when that field does not parse |
| Day02.FieldValuesStep | day-2/main.go:16-22 | recording the value of one more field extends the values read so far by that field's value |
| Day02.LineValuesAt | day-2/main.go:13-25 | field i of a line becomes its 32-bit value, or stays 0 when it does not parse |
| Day02.GetValuesFromLine | day-2/main.go:13-25 | the loop that fills a zeroed slice field by field yields the line's values |
| Day02.GetChanges | day-2/main.go:27-33 | one entry fewer than the values; entry i is the step from value i to value i+1 |
| Day02.GetSign | day-2/main.go:35-40 | the sign is 1 for a positive value and -1 otherwise, zero included |
| Day02.AreValuesSafe | day-2/main.go:42-56 | the report is safe exactly when every step lies in [1,3], or every step lies in [-3,-1]; so a zero step is never safe |
| Day02.ShortIsSafe | day-2/main.go:44-46 | a report of zero or one level is safe |
| Day02.GetRemovedList | day-2/main.go:63-72 | the values without the one at the index, in order: entries before it stay, later ones shift down by one, and the length drops by one |
| Day02.SafeWithRemovalIff | day-2/main.go:74-89 | tolerating one bad level holds exactly when deleting some single level makes the report safe |
| Day02.SafeWithoutFirst | day-2/main.go:74-89 | a safe report is still safe with its first level removed, so an already safe report passes the removal test too |
| Day02.IsLineSafe | day-2/main.go:58-61 | a line is safe when its values are |
| Day02.IsLineSafeWithRemove | day-2/main.go:74-89 | the line is safe as is, or after deleting one of its levels |
| Day02.SafeImpliesSafeWithRemoval | day-2/main.go:77-79 | every safe line is also safe with one removal allowed |
| Day02.CountSafe | day-2/main.go:91-102 | at most one safe report per line |
| Day02.SafeReportCount | day-2/main.go:91-102 | the count is the number of newline-separated lines the chosen rule accepts, at most the line count |
| Day02.CountSafeMonotone | day-2/main.go:104-107 | allowing one removal never lowers the count of safe reports |
| Day03.DigitRun | day-3/main.go:18 | the longest run of digits at the front of the text: all digits, a prefix, and followed by a non-digit or the end |
| Day03.DigitRunBefore | day-3/main.go:18 | digits followed by a non-digit are exactly the run at the front |
| Day03.ParseOperandComplete | day-3/main.go:18-29 | the canonical rendering of a number below 1000 followed by the expected terminator is read back as that number, with the rest of the text left over |
| Day03.ParseOperandSound | day-3/main.go:18-29 | an accepted operand is below 1000 and the text starts with its canonical rendering and the terminator, so spaces, signs and leading zeros are rejected |
| Day03.GetMulValueIfStartsWith | day-3/main.go:12-15 | a text not starting with "mul(" is worth 0 |
| Day03.GetMulValueComplete | day-3/main.go:12-31 | a text starting with "mul(a,b)", canonical operands below 1000, is worth a*b |
| Day03.GetMulValueSound | day-3/main.go:12-31 | a non-zero value comes from a text starting with a canonical "mul(a,b)" with operands below 1000, and equals a*b |
| Day03.SumOfSuffixes | day-3/main.go:34-40 | the empty text sums to 0 |
| Day03.TotalMulValue | day-3/main.go:34-40 | the total is the value of every suffix of the input, summed |
| Day03.EnabledSum | day-3/main.go:42-57 | a disabled machine with no text left adds nothing |
| Day03.TotalMulValueWithEnabling | day-3/main.go:42-57 | the loop with the `enabled` flag, starting enabled, computes the enabled sum: "don't()" disables, "do()" enables, and a call counts only while enabled |
| Day03.EnabledSumAtMost | day-3/main.go:34-57 | part 2 never exceeds part 1 |
| Day03.AbsentTail | day-3/main.go:45-55 | a substring absent from a text is absent from its tail too |
| Day03.EnabledSumWithoutDont | day-3/main.go:34-57 | without "don't()" part 2 equals part 1 |
| Day03.DisabledStaysZero | day-3/main.go:42-57 | once disabled and with no "do()" ahead, nothing more is added |
| Day04.PosIsProduct | day-4/main.go:31-36 | the case-by-case position `Pos(i, c, step)` is `i + c*step` |
| Day04.InBoundIsInGrid | day-4/main.go:14-16 | on a rectangular grid `isInBound(width, height, i, j)` holds exactly when row i, column j is a cell |
| Day04.CheckStartsWithUsingDirection | day-4/main.go:22-43 | the rule holds exactly when the word reads from (i, j) in the direction: every letter c sits in the grid at (i+c*dy, j+c*dx) and matches; on no lines nothing is found |
| Day04.ForwardAndBackwardExample | day-4/main_test.go:34-38 | "XMASAMX" holds exactly two occurrences, forwards from column 0 and backwards from column 6 |
| Day04.XmasCount | day-4/main.go:45-72 | the total is the number of (row, column, direction) triples among the eight directions from which XMAS reads |
| Day04.CountXmasInLines | day-4/main.go:61-71 | the triple loop counts exactly those occurrences |
| Day04.CountAtCell | day-4/main.go:64-68 | the inner loop over the eight rules adds the occurrences starting at one cell |
| Day04.ScanStep | day-4/main.go:64-68 | trying one more direction adds that (cell, direction) to the occurrences found so far exactly when the word reads there |
| Day04.WordAtReverseOneWay | day-4/main.go:30-42 | a word read one way is its reverse read the opposite way from its last letter |
| Day04.WordAtReverse | day-4/main.go:30-42 | a word reads in a direction from a cell exactly when its reverse reads in the opposite direction from the word's last cell |
| Day04.ReverseReverse | day-4/main.go:30-42 | reversing twice gives the word back |
| Day04.Reverse | day-4/main.go:30-42 | character k of the reverse is character len-1-k |
| Day04.WordAtThree | day-4/main.go:35-39 | a three-letter word reads exactly when its three cells are in the grid and hold its letters |
| Day04.CornerRules | day-4/main.go:81-105 | at a 3x3 block the top-left and bottom-right rules read the main diagonal as MAS and as SAM, and the top-right and bottom-left rules do the same for the other diagonal |
| Day04.IsXmasCross | day-4/main.go:94-109 | the result holds exactly when (i, j) and (i+2, j+2) are in the grid and each diagonal of the block reads MAS one way or the other; an empty grid gives false |
| Day04.Count_X_mas_Cross | day-4/main.go:111-127 | the total is the number of cells that are the top-left corner of an X-MAS |
| Day04.CountCrossesInLines | day-4/main.go:118-126 | the double loop, whose bounds stop two short of each edge, counts exactly those corners |
| Day04.CrossStep | day-4/main.go:120-124 | one more corner is counted exactly when it forms an X-MAS |
| Day04.CrossRowDone | day-4/main.go:120 | no corner lies in the last two columns |
| Day04.CrossGridDone | day-4/main.go:119 | no corner lies in the last two rows |
| Day04.GridDone | day-4/main.go:62-63 | scanning every cell finds every occurrence |
| Day04.CellDone | day-4/main.go:63-67 | after all eight rules at a cell the scan moves on to the next cell with nothing found in between |
| Day04.RowDone | day-4/main.go:62 | after the last cell of a line the scan moves on to the next line |
| Day04.OneLineHorizontal | day-4/main.go:30-42 | in a grid of one line only the two horizontal rules can read a word of two or more letters |
| Day05.IsRuleFollowed | day-5/main.go:19-25 | the flag holds exactly when the rule is followed: a page is missing, or `before` first occurs ahead of `after`; the indices are the first positions of the two pages, and a broken rule has both in range with `after` no later than `before` |
| Day05.FollowedByIndex | day-5/main.go:20-23 | a rule is followed exactly when either first index is -1 or the first index of `before` is smaller |
| Day05.GetPageRule | day-5/main.go:27-30 | a line without `|` becomes a rule with that whole line before and the empty page after |
| Day05.GetPageRuleRoundTrip | day-5/main.go:27-30 | "a|b" is read back as the rule a before b when a holds no `|` |
| Day05.IsUpdateInRightOrder | day-5/main.go:32-39 | the update is in order exactly when every rule is followed |
| Day05.NoRulesInOrder | day-5/main.go:32-39 | with no rules every update is in order |
| Day05.ExactPageMatch | day-5/main_test.go:67-71 | pages match only as whole strings, so "21,1,2" breaks the rule 2 before 1 |
| Day05.SwapRepairsRule | day-5/main.go:80-84 | swapping the two pages of a broken rule about distinct pages makes that rule followed |
| Day05.Apply | day-5/main.go:80-84 | a rule's step keeps the number of pages |
| Day05.PassTo | day-5/main.go:79-85 | applying the first k rules keeps the number of pages |
| Day05.Pass | day-5/main.go:79-85 | a pass over all the rules keeps the number of pages |
| Day05.Rounds | day-5/main.go:78-86 | the outer loop makes at most `fuel` rounds |
| Day05.RepeatFirst | day-5/main.go:78-86 | n+1 steps are the first step followed by n steps |
| Day05.IterateMeaning | day-5/main.go:78-86 | the loop cut off at `fuel` rounds ends after its round count of steps; the test holds then unless the fuel ran out, and it held after no earlier count |
| Day05.IterateMoreFuel | day-5/main.go:78-86 | once the loop's test holds, more fuel gives the same result |
| Day05.IterateKeepsLength | day-5/main.go:78-86 | a step that keeps the length keeps it through the loop |
| Day05.ReorderStep | day-5/main.go:78-86 | an update in order (or no fuel) is left as it is; any other gets one pass and the loop goes on with one unit less of fuel |
| Day05.ReorderMeaning | day-5/main.go:77-88 | the reordering is k passes for the first k at which the update is in order, or `fuel` passes when no count up to the fuel puts it in order |
| Day05.ReorderKeepsLength | day-5/main.go:77-88 | the reordering keeps the number of pages |
| Day05.ReorderMoreFuel | day-5/main.go:78 | once the reordering has put the update in order, more fuel gives the same pages |
| Day05.SwitchExample | day-5/main_test.go:208-213 | with rule 1 before 2, one pass turns 2,3,1 into 1,3,2, which is in order |
| Day05.SwapPass | day-5/main.go:79-85 | the array ends as the pass of the rules in order over the old pages, each broken rule swapping its two first positions, and holds the same pages with the same multiplicities |
| Day05.SwapKeepsMultiset | day-5/main.go:81-83 | exchanging two entries keeps the multiset |
| Day05.ReorderUpdates | day-5/main.go:77-88 | the array ends as `Reorder` of the old pages (passes until the update is in order, at most `fuel` of them; an update in order is not touched), the flag says whether it is in order, and the pages are a permutation of the input |
| Day05.ParseInput | day-5/main.go:41-55 | every update read from the text has at least one page |
| Day05.ReorderAll | day-5/main.go:59-63 | each reordered update has as many pages as the update |
| Day05.FindSumOfMedians | day-5/main.go:50-75 | the result is `None` exactly when some update is still out of order after at most `fuel` passes; otherwise the first total adds the middle page of each update already in order, and the second adds the middle page of each other update after its reordering, every reordering being a permutation in order |
| Day05.SumMedians | day-5/main.go:57-74 | the loop over the updates gives `None` exactly when some update is stuck, and otherwise those two totals over the reorderings |
| Day05.MediansStep | day-5/main.go:59-72 | one more update extends the reorderings and adds its middle page to the matching total |
| Day05.AllReordered | day-5/main.go:59-63 | when every reordering is in order no update is stuck |
| Day05.ReorderedUpdate | day-5/main.go:60-63 | one update: its order flag; `None` exactly when its reordering is still out of order; otherwise the reordering, a permutation in order that is the update itself when it was already in order |
| Day05.ReorderingsStep | day-5/main.go:59-72 | a reordered update extends the list of reorderings |
| Day05.MiddleValue | day-5/main.go:64-65 | the middle page's value fits in 32 bits, being 0 or a bound when the page is not a number in range |
| Day05.MiddleValueItoa | day-5/main.go:64-65 | a middle page that is the decimal form of a 32-bit number is read back as that number |
| Day05.SumOfCorrectStep | day-5/main.go:67-68 | an update already in order adds its middle page to the first total |
| Day05.SumOfReorderedStep | day-5/main.go:69-70 | an update out of order adds its reordered middle page to the second total |
| Day06.Rotate90 | day-6/main.go:24-36 | a turn to the right maps each of the four directions to a direction |
| Day06.RotateFourTimes | day-6/main.go:24-36 | four turns give the direction back; one turn always changes it, and two turns reverse it |
| Day06.NextPosAfter1Time | day-6/main.go:125-127 | the cell in front is one step ahead |
| Day06.AdvanceDist | day-6/main.go:98 | k steps ahead lie at Manhattan distance k |
| Day06.IsInTheWayIff | day-6/main.go:71-76 | an obstacle is in the way exactly when it lies a whole number k >= 1 of steps straight ahead, and then k is its distance |
| Day06.FindDistanceToEdge | day-6/main.go:64-91 | for a guard in the grid (`IsInBounds`, main.go:64-66): the cell that many steps ahead is still in the grid and the next one is not, so the count excludes the guard's own cell |
| Day06.NextObstacle | day-6/main.go:93-106 | a chosen obstacle is one of the obstacles, in the way and nearer than the 100000000 cap |
| Day06.NextObstacleNone | day-6/main.go:93-106 | nothing is chosen exactly when no obstacle qualifies |
| Day06.NextObstacleNearest | day-6/main.go:93-106 | when some obstacle qualifies, one is chosen and no qualifying obstacle is nearer |
| Day06.NextObstacleFirst | day-6/main.go:99-102 | on ties the earliest listed of the nearest obstacles is chosen |
| Day06.FindNextObstacle | day-6/main.go:93-106 | the loop with the running minimum returns that choice |
| Day06.FindDistanceToNextPos | day-6/main.go:116-123 | with an obstacle ahead: the number of free cells before it, so one more step reaches it; otherwise the distance to the edge |
| Day06.AdvanceShift | day-6/main.go:125-127 | one step then k steps is k+1 steps |
| Day06.AdvanceNext | day-6/main.go:125-127 | k steps then one step is k+1 steps |
| Day06.WalkFree | day-6/main.go:132 | every cell of the walk is in the grid and is not the stopping obstacle |
| Day06.WalkBlocked | day-6/main.go:132 | the cell after the walk is outside the grid or is the stopping obstacle |
| Day06.WalkLengthSpec | day-6/main.go:132-136 | the walk is the longest run of free cells ahead |
| Day06.Steps | day-6/main.go:133 | step k of the recorded path is k+1 steps ahead |
| Day06.WalkStep | day-6/main.go:132-135 | a free cell ahead adds one step to the walk and leaves fewer cells before the edge |
| Day06.WalkedStep | day-6/main.go:132-135 | the loop's bookkeeping advances by one cell per iteration |
| Day06.WalkEnd | day-6/main.go:132 | a blocked cell ahead ends the walk |
| Day06.StepsSnoc | day-6/main.go:133 | the recorded path grows by the cell just entered |
| Day06.WalkAvoidsObstacles | day-6/main.go:129-139 | in a grid smaller than the cap each way, no cell of the walk holds an obstacle or lies outside |
| Day06.Guard.constructor | day-6/main.go:50-54 | the guard holds the given position, direction and path |
| Day06.Guard.MoveToNextPos | day-6/main.go:129-139 | the guard ends as many steps ahead as the walk allows, the path gains exactly those cells in order, the direction turns right, and the result says whether the cell now ahead of the old direction is in the grid |
| Day06.Guard.CountPositions | day-6/main.go:141-155 | the count is the number of distinct positions on the path, at most its length |
| Day06.DistinctCount | day-6/main.go:145-151 | a list without duplicates has as many distinct elements as entries |
| Day06.CountAtMostLength | day-6/main.go:141-155 | a list never has more distinct elements than entries |
| Day06.CellsInRowMembers | day-6/main.go:162-170 | a position is listed for a row exactly when it is in that row and holds the character |
| Day06.CellsWithMembers | day-6/main.go:161-171 | a position is listed exactly when it is a cell holding the character |
| Day06.GetInputGrid | day-6/main.go:157-173 | the obstacles are the '#' cells in row-major order, the path is the '^' cells, the guard stands at the last '^' (or at (-1,-1) with none) facing up, and the size is the first row's length by the row count |
| Day06.LoneGuardGrid | day-6/main_test.go:13-17 | the grid "^" has no obstacle and the guard at (0,0), so its path has one cell |
| Day06.Moves | day-6/main.go:176 | each of k calls of MoveToNextPos keeps the guard facing one of the four directions |
| Day06.PatrolMeaning | day-6/main.go:175-179 | the loop reports that the guard left exactly when one of its first `fuel` moves takes it out of the grid; it then ends in the state the first such move produces, and otherwise it has made all `fuel` moves |
| Day06.PatrolMoreFuel | day-6/main.go:175-179 | once the guard has left, a larger move bound gives the same final state |
| Day06.SingleCellPatrol | day-6/main_test.go:13-17 | in the grid "^" the guard leaves with its first move, facing right, its path being the one cell it started on |
| Day06.FindGaurdPathLength | day-6/main.go:175-179 | the guard's final position, direction and path, and the flag saying it left, are those of the patrol of at most `fuel` moves (so the flag holds exactly when some move took it out, by PatrolMeaning); the count is the number of distinct cells on the final path; the path only grows; and in a grid smaller than the cap a path that started clear of obstacles and inside the grid stays so |
| Day07.Op.Reverse | day-7/main.go:22-56 | a successful undo gives back a `prev` that the operator maps forward to `total`; a failure yields 0; `+` always succeeds with `total - num`; `*` succeeds exactly when `num` divides `total`; `\|\|` succeeds exactly when `num > 0` and the last digits of `total` (as many as `num` has) spell `num` |
| Day07.Op.Repr | day-7/main.go:26-28 | the rendering extends the text built so far |
| Day07.NumDigits | day-7/main.go:47-48 | for a positive number the count d satisfies 10^(d-1) <= n < 10^d, so it is the number of decimal digits |
| Day07.DivModOf | day-7/main.go:55 | dividing `q*p + r` by p, with 0 <= r < p, gives back q and r |
| Day07.ReverseOfApply | day-7/main.go:22-56 | undoing any operator applied to `prev >= 0` and `num > 0` succeeds and gives back `prev` |
| Day07.ConcatReverseExamples | day-7/main_test.go:149-171 | undoing `\|\|` on (123, 3) gives 12; on (125, 10) it fails |
| Day07.IsTheTotalPossible | day-7/main.go:62-84 | with no numbers (and no operators) nothing is possible; with one number the equation holds exactly when the total equals it; a failure renders nothing |
| Day07.TryOps | day-7/main.go:71-85 | the loop over the operators; a failure renders nothing |
| Day07.PossibleSound | day-7/main.go:62-86 | a success comes with a choice of operators from the list whose left-to-right evaluation is the total, and the rendered text is that expression |
| Day07.TrySound | day-7/main.go:71-85 | the same for the loop from any operator onwards |
| Day07.TryFinds | day-7/main.go:71-85 | if some operator from the current one on can be undone and leaves a solvable prefix, the loop succeeds |
| Day07.EvalPositive | day-7/main.go:62-86 | evaluating positive numbers with any operators gives a positive value |
| Day07.PossibleComplete | day-7/main.go:62-86 | for positive numbers every choice of listed operators that evaluates to the total is detected |
| Day07.PossibleIff | day-7/main.go:62-86 | for positive numbers the equation is possible exactly when some left-to-right choice of the listed operators evaluates to the total |
| Day07.MoreOpsStayPossible | day-7/main.go:62-86 | allowing more operators never turns a possible equation impossible |
| Day07.PossibleExamples | day-7/main_test.go:7-98 | `190: 10 19` is possible with `+` and `*`; `83: 17 5` is not |
| Day07.FindTotalOfValidEquations | day-7/main.go:124-133 | the result is the sum of the totals of exactly the equations that are possible |
| Day07.MoreOpsLargerTotal | day-7/main.go:135-139 | for positive numbers and non-negative totals, the second part's larger operator set never lowers the sum |
| Day08.SlopeLeadsBack | day-8/main.go:25-31 | `FindSlope` is the inverse of `AlongSlope`: one step along the slope from `pos2` to `pos1` reaches `pos1`, one step back from `pos1` reaches `pos2`, and the slope is zero exactly when the positions coincide |
| Day08.AlongSlopeAdd | day-8/main.go:29-31 | a steps then b steps along a slope is a+b steps |
| Day08.AlongNegSlope | day-8/main.go:29-31 | m steps along the reversed slope is -m steps along the slope |
| Day08.FindAntiNodeLocations | day-8/main.go:33-36 | the two antinodes lie on the antennas' line, each twice as far from one antenna as from the other; equal antennas give that position twice |
| Day08.AntiNodeExamples | day-8/main_test.go:28-67 | antennas (1,3),(1,4) give (1,2),(1,5); antennas (8,1),(5,2) give (11,0),(2,3) |
| Day08.RayStep | day-8/main.go:42-48 | from an in-bounds point the run of points is that point followed by the run from the next one, whose distance to the edge is smaller |
| Day08.RaySound | day-8/main.go:42-55 | every point of a run is in bounds (`Position.IsInBounds`, main.go:75-77) and a whole number k >= 0 of steps from its start |
| Day08.Between | day-8/main.go:44 | a coordinate that is in bounds before and after k steps is in bounds after one step |
| Day08.RayComplete | day-8/main.go:42-55 | every in-bounds point k steps from an in-bounds start lies in the run, so no point is skipped before the loop stops |
| Day08.Backwards | day-8/main.go:50 | k steps back from `node2` is -k-1 steps from `node1` |
| Day08.FoundOnLine | day-8/main.go:38-57 | every point found is in bounds and a whole number m of steps from `node1` |
| Day08.LineFound | day-8/main.go:38-57 | for in-bounds antennas, every in-bounds point m steps from `node1`, m of either sign, is found |
| Day08.AlongLineIff | day-8/main.go:38-57 | for in-bounds distinct antennas a point is found exactly when it is in bounds and on their line at a whole number of steps |
| Day08.FindAllPointsAlongSlope | day-8/main.go:38-57 | the two loops return the run from `node1` forwards followed by the run from `node2` backwards, and stop only for distinct antennas |
| Day08.PairRow | day-8/main.go:63-65 | the inner loop adds one pair per later element |
| Day08.PairsFromCount | day-8/main.go:60-66 | twice the number of pairs from index `from` on is m*(m-1) for the m remaining elements |
| Day08.PairsCount | day-8/main.go:60 | there are n*(n-1)/2 pairs, the capacity Go reserves |
| Day08.PairsFromMembers | day-8/main.go:62-66 | a pair is listed from index `from` on exactly when it is some (elements[i], elements[j]) with from <= i < j |
| Day08.PairsMembers | day-8/main.go:59-68 | a pair is listed exactly when it is some (elements[i], elements[j]) with i < j |
| Day08.FindAllPairs | day-8/main.go:59-68 | the nested loops list the pairs with i < j in order of i, then j |
| Day08.CellsInRowMembers | day-8/main.go:84-85 | a position is listed for the row exactly when it is in that row, before column n, and holds the character |
| Day08.CellsWithMembers | day-8/main.go:83-85 | a position is listed exactly when it is a cell of the lines holding the character |
| Day08.CellsInRowDistinct | day-8/main.go:84-90 | a row lists no position twice |
| Day08.CellsWithDistinct | day-8/main.go:83-90 | the lines list no position twice |
| Day08.RecordCell | day-8/main.go:85-92 | recording one more cell of a line keeps every frequency's list equal to its cells read so far |
| Day08.RecordCellFor | day-8/main.go:85-92 | the same for one frequency |
| Day08.ReadLine | day-8/main.go:84-93 | after a line the map holds, for each frequency other than '.', exactly its cells in row-major order, and no key for a frequency without cells |
| Day08.ReadInputGrid | day-8/main.go:79-99 | the size is the first line's length by the line count, and each character other than '.' maps to the positions holding it, in row-major order |
| Day08.InsertIfValid | day-8/main.go:104-112 | the list stays free of duplicates and gains the node exactly when it is in bounds and not yet present |
| Day08.PairsOfDistinct | day-8/main.go:115 | the pairs of a list without duplicates are pairs of distinct positions |
| Day08.FindNodes | day-8/main.go:117 | calls the chosen node finder |
| Day08.InsertAll | day-8/main.go:118-120 | the list gains exactly the in-bounds found nodes, without duplicates |
| Day08.InsertPairsNodes | day-8/main.go:116-121 | the list gains exactly the in-bounds nodes found for the pairs, without duplicates |
| Day08.AntiNodesOfStep | day-8/main.go:114-122 | the antinodes of one more frequency add that frequency's antinodes |
| Day08.PairsNodesInBounds | day-8/main.go:116-121 | every node kept for the pairs is in bounds |
| Day08.InBoundsOf | day-8/main.go:108-110 | a list holding exactly the antinodes is in bounds |
| Day08.FindAllAntiNodes | day-8/main.go:101-124 | the result has no duplicates, lies in bounds, and holds exactly the in-bounds nodes found for every pair of every frequency, a set that does not depend on the order the map is visited |
| Day09.BlockCount | day-9/main.go:47 | a block count is at most 9 |
| Day09.BlockCountIsParsed | day-9/main.go:47 | the count is the value `strconv.ParseInt` gives the single character, with a failed parse counted as 0 as Go's ignored error leaves it |
| Day09.DiskLength | day-9/main.go:44-60 | the disk is as long as the sum of the block counts |
| Day09.DiskAt | day-9/main.go:44-60 | the t-th block of entry i lies at the sum of the earlier counts plus t and holds i/2 for an even i (a file) and -1 for an odd i (free space) |
| Day09.DiskSplit | day-9/main.go:46-57 | the disk of the input is the disk of all but its last character followed by that character's run |
| Day09.OffsetPrefixAt | day-9/main.go:46-57 | offsets within a prefix of the input agree with offsets in the whole input |
| Day09.OffsetMonotone | day-9/main.go:46-57 | later entries start no earlier |
| Day09.GetDiskFromInput | day-9/main.go:44-60 | the loop builds the disk the input describes, run after run |
| Day09.Files | day-9/main.go:16-42 | the file blocks of a disk contain no free block and are no more than its blocks |
| Day09.FilesAppend | day-9/main.go:16-42 | the file blocks of two joined stretches are the file blocks of each, joined |
| Day09.DropTrailingFree | day-9/main.go:20-27 | removing the trailing free blocks leaves a prefix ending in a file block or empty, and every removed block was free |
| Day09.FilesOfDropTrailingFree | day-9/main.go:20-27 | removing trailing free blocks keeps the file blocks |
| Day09.FilesAllFree | day-9/main.go:20-27 | a stretch of free blocks has no file blocks |
| Day09.FilesSingle | day-9/main.go:30-31 | one block contributes itself exactly when it is not free |
| Day09.FilesCons | day-9/main.go:29-39 | a leading block contributes before the rest |
| Day09.FileFirst | day-9/main.go:30-33 | a leading file block stays in front and the rest is compacted |
| Day09.FreeFirst | day-9/main.go:35-38 | with a leading free block the file blocks are those of the rest without its trailing free blocks |
| Day09.FilesLast | day-9/main.go:35-36 | a stretch ending in a file block has that block last among its file blocks |
| Day09.CompactedNoFree | day-9/main.go:16-42 | the compacted disk has no free block |
| Day09.CompactedMultiset | day-9/main.go:16-42 | the compacted disk holds the same file blocks, counted with multiplicity, as the input |
| Day09.CompactedLength | day-9/main.go:16-42 | the compacted disk is as long as the number of file blocks |
| Day09.FirstFree | day-9/main.go:29-33 | the index of the first free block, or the length when there is none |
| Day09.FirstFreeTail | day-9/main.go:29-33 | a leading file block moves the first free block one further |
| Day09.CompactedKeepsPrefix | day-9/main.go:29-33 | the blocks before the first free block keep their places |
| Day09.CompactedExamples | day-9/main_test.go:66-112 | `1 . 2` compacts to `1 2`; `1 . . 2 2 . 3` compacts to `1 3 2 2` |
| Day09.MoveToNextLastIndex | day-9/main.go:20-27 | on success the last index moves down to a file block above `curIndex`; otherwise it stops at `curIndex` or stays; every block skipped is free |
| Day09.DropFreeTail | day-9/main.go:20-27 | the stretch up to the old last index without its trailing free blocks is the stretch up to the new one |
| Day09.FileStep | day-9/main.go:30-33 | copying a file block at i compacts the rest from i+1 |
| Day09.FreeStep | day-9/main.go:35-38 | filling a free block at i takes the last file block, and then the stretch between is compacted; with no file block left the rest is empty |
| Day09.FreeFirstCompacted | day-9/main.go:35-38 | compacting a stretch that starts free puts its last file block first |
| Day09.RearrangeDiskUsingFragmentation | day-9/main.go:16-42 | the result is the compacted disk, so it has no free block, holds exactly the input's file blocks and keeps the blocks before the first free block in place |
| Day09.ComputeDiskChecksumPart1 | day-9/main.go:62-74 | the checksum is the sum of position times file ID over the compacted disk |
| Day09.FindSumOfIndices | day-9/main.go:76-82 | for n >= 0 the closed form equals start + (start+1) + ... + (start+n-1) |
| Day09.ConsecutiveProductEven | day-9/main.go:79-80 | m*(m-1) is non-negative and even, so its truncated half is exact |
| Day09.ProductNonNegative | day-9/main.go:79-80 | m*(m-1) is never negative |
| Day09.SumFromClosedForm | day-9/main.go:79-81 | twice the sum of n indices from start is end*(end-1) - start*(start-1) with end = start+n |
| Day09.CheckSum | day-9/main.go:95-97 | a file's checksum is its ID times the sum of the positions it occupies |
| Day09.FirstFit | day-9/main.go:108-115 | the index of the first gap at least as large as the size, with every earlier gap smaller, or -1 when every gap is smaller |
| Day09.FindGapThatFits | day-9/main.go:108-115 | the loop returns that first fitting gap |
| Day09.FirstFitIs | day-9/main.go:108-115 | any index with the first-fit properties is the first fit |
| Day09.MoveFile | day-9/main.go:118-126 | when the first fitting gap lies at or before the file, the file moves to the gap's start and the gap shrinks from the front by the file's size, keeping its end; otherwise nothing changes; ID and size never change and the start never increases |
| Day09.CopyWholeFiles | day-9/main.go:117-127 | each file is processed once and the gap list keeps its length |
| Day09.CopyWholeFilesStep | day-9/main.go:117-127 | the last file is moved first, then the rest with the updated gaps |
| Day09.CopyWholeFilesShape | day-9/main.go:105-130 | the files come out in reverse order with ID and size unchanged and starts never larger |
| Day09.RearrangeDiskByCopyWholeFiles | day-9/main.go:105-130 | the result is the files moved from last to first, and the caller's gap slice is updated in place as the moves leave it |
| Day09.ComputeDiskChecksumPart2 | day-9/main.go:148-160 | the checksum is the sum of the moved files' checksums |
| Day09.FilesReadAppend | day-9/main.go:138-139 | reading one more file entry extends the files read |
| Day09.GapsReadAppend | day-9/main.go:140-141 | reading one more gap entry extends the gaps read |
| Day09.ReadFilesAndGapsFromInput | day-9/main.go:132-146 | even characters become files with ID i/2, odd ones gaps, each starting at the sum of the earlier counts with its own count as size |
| Day09.FileOnDisk | day-9/main.go:44-60 | each block of the k-th file as read for the second part holds k on the disk of the first part, so both readings agree |
| Day10.Append3 | day-10/main.go:86 | appending in two steps or at once gives the same queue |
| Day10.Grid.InBoundsIsStored | day-10/main.go:56-58 | on a well-formed grid a position is in bounds exactly when it names a stored height, so every read `IsInBounds` guards is safe |
| Day10.Grid.NeighboursFrom | day-10/main.go:62-73 | the directions from the i-th on add at most one position each |
| Day10.Grid.NeighbourIsStep | day-10/main.go:62-73 | every position offered is in bounds, orthogonally adjacent and exactly one higher |
| Day10.Grid.StepIsNeighbour | day-10/main.go:62-73 | every in-bounds direction leading exactly one higher is offered |
| Day10.Grid.NeighboursIff | day-10/main.go:60-75 | a position is offered exactly when it is in bounds, orthogonally adjacent and exactly one higher |
| Day10.Grid.NeighboursFromStep | day-10/main.go:62-73 | one iteration of the loop over directions adds the next position exactly when it passes both checks |
| Day10.Grid.FindNextPossibleLocations | day-10/main.go:60-75 | the loop offers the qualifying neighbours in the order up, right, down, left |
| Day10.Grid.NeighboursInBounds | day-10/main.go:64-66 | every position offered is in bounds |
| Day10.Grid.SumAppend | day-10/main.go:97-104 | the trail counts of a joined queue add up |
| Day10.Grid.SumTrailsNeighbours | day-10/main.go:98-100 | the trails through the queued neighbours are the trails through the position |
| Day10.Grid.SumPrefixesNeighbours | day-10/main.go:97-104 | the same for the number of positions the search visits |
| Day10.Grid.TopsAreNines | day-10/main.go:77-93 | every top reachable from a position is an in-bounds cell of height 9 |
| Day10.Grid.TopsViaAreNines | day-10/main.go:77-93 | the same for the tops reached through the directions from the i-th on |
| Day10.Grid.TopsAtMostTrails | day-10/main.go:77-106 | a position reaches no more tops than it has trails |
| Day10.Grid.TopsViaAtMostTrailsVia | day-10/main.go:77-106 | the same through the directions from the i-th on |
| Day10.Grid.NeighbourTops | day-10/main.go:85-86 | the tops a neighbour reaches are tops of the position |
| Day10.Grid.ClosedHoldsTops | day-10/main.go:80-91 | when the search has expanded every visited position below 9, every top of a visited position is visited |
| Day10.Grid.ClosedHoldsTopsVia | day-10/main.go:80-91 | the same through the directions from the i-th on |
| Day10.Grid.VisitShrinks | day-10/main.go:82-83 | visiting a new cell leaves fewer cells unvisited, which bounds the search |
| Day10.Grid.SkipKeepsInvariant | day-10/main.go:82 | dropping an already visited position keeps the search invariant |
| Day10.Grid.ClosedAfterVisit | day-10/main.go:83-86 | visiting the front position and queuing its neighbours keeps every expanded position's neighbours visited or queued |
| Day10.Grid.CountKeepsInvariant | day-10/main.go:87-88 | visiting a new top keeps the invariant and counts one more top |
| Day10.Grid.ListedAfterVisit | day-10/main.go:83-86 | after a visit every visited or queued position is in bounds and reaches only tops of the start |
| Day10.Grid.ExpandKeepsInvariant | day-10/main.go:84-86 | visiting a new position below 9 keeps the invariant and the count of visited tops |
| Day10.Grid.SearchFinds | day-10/main.go:80-92 | when the queue is empty the visited tops are exactly the tops reachable from the start |
| Day10.Grid.FindReachableTops | day-10/main.go:77-93 | the count is the number of distinct height-9 cells reachable by trails climbing one at a time from the start |
| Day10.Grid.FindPossibleTrails | day-10/main.go:95-106 | the count is the number of distinct climbing trails from the start to a height-9 cell |
| Day10.Grid.ZerosInRowIff | day-10/main.go:47-51 | a position is listed for row y exactly when it is in that row before column w and has height 0 |
| Day10.Grid.ZerosBelowIff | day-10/main.go:46-52 | a position is listed for the first h rows exactly when it lies there and has height 0 |
| Day10.Grid.StartingPositionsIff | day-10/main.go:44-54 | a position is a trailhead exactly when it is in bounds and has height 0 |
| Day10.Grid.ZerosInRowSorted | day-10/main.go:47-51 | a row's trailheads lie in that row in increasing column order |
| Day10.Grid.ZerosBelowSorted | day-10/main.go:46-52 | the trailheads of the first h rows come in row-major order |
| Day10.Grid.StartingPositionsSorted | day-10/main.go:44-54 | the trailheads come in row-major order, so none is listed twice |
| Day10.Grid.IdentifyStartingPositions | day-10/main.go:44-54 | the nested loops list the trailheads row by row |
| Day10.Grid.StartsInBounds | day-10/main.go:44-54 | every trailhead is in bounds |
| Day10.Grid.FindTotalScore | day-10/main.go:108-123 | the total is the sum of the chosen score over all trailheads |
| Day10.Grid.SumScoresOrdered | day-10/main.go:77-106 | summed over any positions, reachable tops never exceed trails |
| Day10.Grid.PartTwoAtLeastPartOne | day-10/main.go:148-152 | the second part's total is at least the first part's |
| Day10.Height | day-10/main.go:135-140 | a cell's height is the digit's value, or -1 when the character does not parse, so it lies in -1..9 |
| Day10.GridOfShape | day-10/main.go:125-146 | the grid read has the line count as height and the first line's length as width, is well formed exactly when all lines are that long, and then every height is at most 9 |
| Day10.ReadInput | day-10/main.go:125-146 | the loops build the grid whose cells are the heights of the characters |
| Day10.SmallStarts | day-10/main_test.go:53-74 | the 4x4 grid of the test has exactly one trailhead, at (0,0) |
| Day11.Wrap64 | day-11/main.go:32 | the wrapped product is an int64, equal to the exact value when that fits and congruent to it modulo 2^64 otherwise |
| Day11.FindNumDigits | day-11/main.go:21-23 | a printed number has at least one character |
| Day11.NumDigitsBounds | day-11/main.go:21-23 | for a number that is not negative, d digits place it in [10^(d-1), 10^d) |
| Day11.Pow10Monotone | day-11/main.go:35 | powers of ten grow with the exponent |
| Day11.NumDigitsInt64 | day-11/main.go:21-23 | an int64 prints in at most 20 characters |
| Day11.Pow10Of19 | day-11/main.go:35 | 10^19, the bound on int64 magnitudes used above |
| Day11.ApplyBlinkRule | day-11/main.go:25-38 | a stone becomes one or two stones, all int64 |
| Day11.BlinkRule | day-11/main.go:25-38 | 0 becomes 1; an odd digit count multiplies by 2024 with int64 wrap-around; an even digit count splits into two numbers that rebuild the stone as first * 10^(d/2) + second |
| Day11.DivAtMost | day-11/main.go:37 | dividing by at least 1 never grows a natural number |
| Day11.HalvesInRange | day-11/main.go:37 | Go's truncated quotient and remainder by a power of ten up to 10^10 are int64 and rebuild the value |
| Day11.SplitHalves | day-11/main.go:35-37 | for a positive stone with an even digit count 2k, the right half is below 10^k and the left half has exactly k digits |
| Day11.QuotientBounds | day-11/main.go:37 | a quotient of a value in [lo*e, e*e) by e lies in [lo, e) |
| Day11.MulMonotone | day-11/main.go:37 | multiplying by a natural number keeps order |
| Day11.MulByPredecessor | day-11/main.go:37 | e*(l-1) is l*e - e |
| Day11.RuleOfOne | day-11/main_test.go:9-50 | 0 becomes 1 and 1 becomes 2024 |
| Day11.RuleOfOddDigits | day-11/main_test.go:9-50 | 1036288 becomes 1036288 * 2024 |
| Day11.RuleOf2024 | day-11/main_test.go:9-50 | 2024 splits into 20 and 24 |
| Day11.RuleOf28676032 | day-11/main_test.go:9-50 | 28676032 splits into 2867 and 6032 |
| Day11.RuleOfTwoDigits | day-11/main.go:25-38 | a two-digit stone splits into its tens and units digits |
| Day11.Blink | day-11/main.go:48-60 | a blink keeps all stones int64 |
| Day11.After | day-11/main.go:40-46 | any number of blinks keeps all stones int64 |
| Day11.BlinkAppend | day-11/main.go:48-60 | blinking two rows of stones blinks each row separately, in order |
| Day11.AllInt64Append | day-11/main.go:48-60 | two rows are int64 exactly when each is |
| Day11.BlinkSnoc | day-11/main.go:48-60 | one more stone adds what that stone becomes |
| Day11.AfterAppend | day-11/main.go:48-60 | after any number of blinks the stones of two rows are each row's stones, in order, so stones never interact |
| Day11.CountAfterIsLength | day-11/main.go:40-46 | the recursive count for one stone is the number of stones it becomes |
| Day11.CountAllIsLength | day-11/main.go:48-60 | the recursive count for a row is the number of stones it becomes |
| Day11.CountAfterPositive | day-11/main.go:40-46 | a stone is at least one stone after any number of blinks: 1 with no blinks, and one or two stones each counting at least 1 otherwise |
| Day11.CountAllAtLeast | day-11/main.go:48-60 | a row becomes at least as many stones as it has, since each stone counts at least 1 |
| Day11.EmptyStaysEmpty | day-11/main.go:48-60 | no stones stay no stones |
| Day11.CountExamples | day-11/main_test.go:52-98 | one stone without blinks counts 1; 2024 counts 2 after one blink and 4 after two |
| Day11.BlinkCounter.constructor | day-11/main.go:19 | the cache starts empty and consistent |
| Day11.BlinkCounter.GetCountAfterBlinks | day-11/main.go:40-46 | the score is the number of stones the stone becomes after the blinks; every cached entry stays the true count and no entry is lost |
| Day11.BlinkCounter.GetTotalElementsAfterBlinks | day-11/main.go:48-60 | the total is the number of stones the row becomes; a cached score is reused, a missing one is computed and stored, and the cache stays consistent |
| Day11.StonesOf | day-11/main.go:62-69 | there is one stone per space-separated field, each an int64 |
| Day11.StonesOfDecimal | day-11/main.go:66 | a field holding the decimal form of an int64 reads back as that number |
| Day11.ReadInput | day-11/main.go:62-69 | the loop parses each field in order |
| Day12.Grid.InBoundsIsStored | day-12/main.go:22-24 | on a well-formed map a position is in bounds exactly when it names a stored plot, so every read `IsInBounds` guards is safe |
| Day12.PerpDirsArePerpendicular | day-12/main.go:30-36 | for each of the four directions, `FindPerpDirs` gives two perpendicular directions that are opposite each other and turn between vertical and horizontal |
| Day12.Neighbours | day-12/main.go:57-58 | the i-th candidate is one step in the i-th direction |
| Day12.NeighboursAdjacent | day-12/main.go:57-58 | the candidates are exactly the four orthogonally adjacent cells, none twice |
| Day12.Filter | day-12/main.go:55-64 | keeping some candidates never adds any |
| Day12.FilterMembers | day-12/main.go:55-64 | a cell is kept exactly when it is a candidate that passes the test |
| Day12.FilterDistinct | day-12/main.go:55-64 | filtering a list without duplicates leaves none |
| Day12.FilterAll | day-12/main.go:81-88 | a test every candidate passes, like `alwaysTrue`, keeps all of them |
| Day12.FindAdjacentValidCells | day-12/main.go:55-64 | the result is exactly the adjacent cells that pass the test, in direction order, without duplicates and at most four |
| Day12.Edges | day-12/main.go:66-73 | there is one edge per direction |
| Day12.EdgesAt | day-12/main.go:66-73 | the i-th edge is the cell one step in the i-th direction paired with that direction |
| Day12.FindAdjacentCells | day-12/main.go:66-73 | an edge is listed exactly when its cell is one step from the position in its direction |
| Day12.DistinctCard | day-12/main.go:77-79 | a list without duplicates has as many distinct cells as entries |
| Day12.Area | day-12/main.go:77-79 | for a region without duplicates the area is its number of cells |
| Day12.CountOutside | day-12/main.go:88-92 | a cell adds at most one per neighbour outside the region |
| Day12.PerimeterOver | day-12/main.go:87-93 | the cells contribute at most four fences each |
| Day12.CountOutsideAll | day-12/main.go:88-92 | neighbours all outside the region all count |
| Day12.Perimeter | day-12/main.go:85-95 | the loops count, over every cell, the neighbours not in the region, between 0 and four per cell |
| Day12.SingleCellPerimeter | day-12/main_test.go:137-171 | a single cell has perimeter 4 |
| Day12.ExposedOf | day-12/main.go:106-111 | the fences of a cell are among its edges |
| Day12.ExposedOfSnoc | day-12/main.go:106-111 | one more edge is a fence exactly when its cell is outside the region |
| Day12.ExposedOverSnoc | day-12/main.go:105-111 | one more cell adds its fences at the end |
| Day12.ExposedOfEdges | day-12/main.go:106-111 | a cell has as many fences as neighbours outside the region |
| Day12.ExposedOverLength | day-12/main.go:105-111 | the fences listed for the region are as many as its perimeter |
| Day12.CountAsWritten | day-12/main.go:111-121 | each listed fence counts at most once |
| Day12.CountAsWrittenSnoc | day-12/main.go:111-121 | a new fence adds a side exactly when no fence already listed lies next to it, on either side, facing the same way |
| Day12.ScanAround | day-12/main.go:106-122 | the inner loop appends the cell's fences and keeps the running count equal to the count over the list so far |
| Day12.NumSides | day-12/main.go:102-125 | the result is the count of the fences listed in the region's order, between 0 and the perimeter |
| Day12.NumSidesAtMostPerimeter | day-12/main.go:102-125 | the sides counted as written never exceed the perimeter |
| Day12.CountStarts | day-12/main.go:102-125 | a cell starts at most one side per direction |
| Day12.SidesOver | day-12/main.go:102-125 | the cells start at most four sides each |
| Day12.CountSides | day-12/main.go:102-125 | the corrected count: a fence starts a side when the cell on its first perpendicular side has no fence facing the same way; the result is between 0 and the perimeter |
| Day12.CountStartsAtMost | day-12/main.go:102-125 | a cell starts no more sides than it has fences |
| Day12.SidesOverAtMost | day-12/main.go:102-125 | cells start no more sides than they have fences |
| Day12.SidesAtMostPerimeter | day-12/main.go:102-125 | the corrected count never exceeds the perimeter |
| Day12.SidesOverAppend | day-12/main.go:105 | the sides started by two lists of cells add up |
| Day12.SidesOverPermutation | day-12/main.go:105 | listing the same cells in another order starts the same sides |
| Day12.MultisetRemove | day-12/main.go:105 | removing the same cell from two equal multisets leaves equal multisets |
| Day12.SidesIgnoreOrder | day-12/main.go:102-125 | the corrected count of a region does not depend on the order its cells are listed in |
| Day12.ExposedAtUnfold | day-12/main.go:106-111 | a cell's fences are its outside neighbours in the order up, right, down, left |
| Day12.CountAsWrittenPrefix | day-12/main.go:111-121 | counting one more fence of a list adds one exactly when it joins no earlier fence |
| Day12.ExposedOverCells | day-12/main.go:105-111 | the fences of the first one, two or three cells are those cells' fences in order |
| Day12.CountAsWrittenByJoins | day-12/main.go:111-121 | the count over a prefix is the number of fences there that join no earlier fence |
| Day12.CountAsWrittenStep | day-12/main.go:111-121 | one more fence extends that equality |
| Day12.CountStartsPrefix | day-12/main.go:102-125 | one more direction adds one when the cell starts a side there |
| Day12.CountStartsUnfold | day-12/main.go:102-125 | a cell's starts are the sum over the four directions |
| Day12.SidesOverCells | day-12/main.go:102-125 | the starts of the first one, two or three cells are those cells' starts added up |
| Day12.BarFencesListed | day-12/main.go:105-111 | the bar listed left, right, middle has its eight fences in that order |
| Day12.BarInOrderFencesListed | day-12/main.go:105-111 | the bar listed left to right has its eight fences in that order |
| Day12.BarJoinsFirst | day-12/main.go:113-119 | listed left, right, middle, the first four fences join nothing |
| Day12.BarJoinsLast | day-12/main.go:113-119 | and of the last four only the middle cell's two join |
| Day12.BarInOrderJoinsFirst | day-12/main.go:113-119 | listed left to right, only the fourth of the first four fences joins |
| Day12.BarInOrderJoinsLast | day-12/main.go:113-119 | and of the last four all but the right end's join |
| Day12.NumSidesByJoins | day-12/main.go:102-125 | the count as written is the number of fences that join no earlier fence |
| Day12.CountFalseExamples | day-12/main.go:121 | six fences of the first listing and four of the second start a side |
| Day12.BarJoins | day-12/main.go:113-119 | which fences of the bar listed left, right, middle join an earlier one |
| Day12.BarInOrderJoins | day-12/main.go:113-119 | which fences of the bar listed left to right join an earlier one |
| Day12.NumSidesDependsOnOrder | day-12/main.go:102-125 | the same three cells count 6 sides listed left, right, middle and 4 listed left to right |
| Day12.NumSidesOfBar | day-12/main.go:102-125 | the bar listed left, right, middle counts 6 sides as written |
| Day12.NumSidesOfBarInOrder | day-12/main.go:102-125 | the bar listed left to right counts 4 sides as written |
| Day12.SidesOfBarInOrder | day-12/main.go:102-125 | the corrected count of the bar is 4 |
| Day12.BarStartsLeft | day-12/main.go:102-125 | the bar's left cell starts one side, its left fence |
| Day12.BarStartsMiddle | day-12/main.go:102-125 | the bar's middle cell starts none |
| Day12.BarStartsRight | day-12/main.go:102-125 | the bar's right cell starts three: top, right and bottom |
| Day12.BarStarts | day-12/main.go:102-125 | the three cells of the bar start 1, 0 and 3 sides |
| Day12.SingleFencesListed | day-12/main.go:105-111 | a single cell has its four fences |
| Day12.DominoFencesListed | day-12/main.go:105-111 | the vertical domino of the test has six fences in the order listed |
| Day12.TrominoFencesListed | day-12/main.go:105-111 | the L shape of the test has eight fences in the order listed |
| Day12.SingleJoins | day-12/main.go:113-119 | no fence of a single cell joins another |
| Day12.DominoJoinsFirst | day-12/main.go:113-119 | the domino's first three fences join nothing |
| Day12.DominoJoinsLast | day-12/main.go:113-119 | of the domino's last three, the right and left ones join |
| Day12.DominoJoins | day-12/main.go:113-119 | which fences of the domino join an earlier one |
| Day12.TrominoJoinsFirst | day-12/main.go:113-119 | of the L shape's first four fences only the third joins |
| Day12.TrominoJoinsLast | day-12/main.go:113-119 | of its last four only the last joins |
| Day12.TrominoJoins | day-12/main.go:113-119 | which fences of the L shape join an earlier one |
| Day12.ShapeJoinedCounts | day-12/main.go:121 | the three shapes start 4, 4 and 6 sides |
| Day12.NumSidesOfShapes | day-12/main_test.go:102-135 | a single cell and the domino have 4 sides and the L shape 6, as the test expects |
| Day12.Grid.FindContainingRegion | day-12/main.go:131-144 | the region starts at the given cell, lists no cell twice, holds every cell connected to it through adjacent cells of the same plant, and only such cells |
| Day12.DistinctAppend | day-12/main.go:141-158 | joining lists without duplicates and without common cells leaves no duplicates |
| Day12.ConnectedSelf | day-12/main.go:132 | a cell is connected to itself |
| Day12.ConnectedExtend | day-12/main.go:139-141 | a connection extends by one adjacent cell of the same plant |
| Day12.PathSamePlant | day-12/main.go:135 | every cell on a path is in bounds and of the starting plant |
| Day12.ConnectedSamePlant | day-12/main.go:135 | connected cells are in bounds and of the same plant |
| Day12.PathStaysInside | day-12/main.go:131-144 | a path that starts in a set closed under same-plant adjacency stays in it |
| Day12.PathStartsInside | day-12/main.go:131-144 | a path that ends in such a set lies in it |
| Day12.RegionIsComponent | day-12/main.go:131-144 | a cell is in the region exactly when it is connected to the start |
| Day12.RegionInBounds | day-12/main.go:131-144 | every cell of a region is in bounds and of the start's plant |
| Day12.SearchStep | day-12/main.go:138-142 | expanding the next queued cell keeps the region duplicate-free, connected and closed up to the expanded cells |
| Day12.RegionAvoidsVisited | day-12/main.go:152-158 | a region found from an unvisited cell shares no cell with the visited cells, and adding it keeps them closed |
| Day12.QueueStep | day-12/main.go:138-141 | the queue is always the unexpanded end of the region |
| Day12.SearchShrinks | day-12/main.go:139-141 | adding new cells leaves fewer cells outside the region, so the search ends |
| Day12.AddRegion | day-12/main.go:156-158 | adding a found region keeps the visited cells the concatenation of the regions, duplicate-free and closed |
| Day12.Grid.CoverStep | day-12/main.go:151-158 | after a cell is handled every cell before it in column-major order is visited |
| Day12.Grid.NextColumn | day-12/main.go:150-151 | finishing a column covers it |
| Day12.Grid.FindTotalScore | day-12/main.go:146-162 | the regions found partition the grid into same-plant connected components, and the total is the sum of their scores |
| Day12.Score | day-12/main.go:165-172 | a region's score is its area times its perimeter or its corrected side count |
| Day12.Grid.SolveForPart1 | day-12/main.go:164-168 | the answer is the sum of area times perimeter over a partition of the grid into regions |
| Day12.Grid.SolveForPart2 | day-12/main.go:170-174 | the answer is the sum of area times the corrected side count over such a partition |
| Day12.GridOfShape | day-12/main.go:176-188 | the grid read has the line count as height and the first line's length as width, and is well formed exactly when all lines are that long |
| Day12.ReadInput | day-12/main.go:176-188 | the grid's rows are the input's lines |
| Day13.CramerForward | day-13/main.go:35-43 | any press counts that reach the prize satisfy den*l == aNum and den*m == bNum |
| Day13.CramerBackward | day-13/main.go:41-50 | with den != 0, counts satisfying those two equations reach the prize |
| Day13.NumeratorsCombine | day-13/main.go:41-43 | the identities behind Cramer's rule for the two coordinates |
| Day13.Distribute | day-13/main.go:41-43 | multiplying through by den distributes over the button sum |
| Day13.MulCancel | day-13/main.go:49-50 | a non-zero factor cancels |
| Day13.UniqueSolution | day-13/main.go:31-33 | with independent buttons at most one pair of press counts reaches the prize |
| Day13.GetMinimumScore | day-13/main.go:22-58 | an unwinnable machine scores 0 |
| Day13.ScoreIffSolution | day-13/main.go:22-58 | the machine is winnable exactly when some press counts, neither excluded, reach the prize, and then the score is 3 per A press plus 1 per B press |
| Day13.NotDivisibleMeansNoSolution | day-13/main.go:45-47 | when den divides either numerator with a remainder no whole press counts reach the prize, and the machine scores (0, false) |
| Day13.ExcludedCountRejected | day-13/main.go:52-54 | when the counts that reach the prize include an excluded one the machine scores (0, false) |
| Day13.ScoreFromCounts | day-13/main.go:45-56 | exact quotients give the score 3*l + m unless a count is excluded |
| Day13.NegativeCountsAccepted | day-13/main.go:52-56 | the buttons (1,1) and (1,2) reach (1,0) with 2 and -1 presses, and the machine is accepted with score 5: negative counts are not excluded |
| Day13.TotalScoreOfSolutions | day-13/main.go:68-77 | when each machine is reached by known counts, the total is the summed cost of those counts, excluded ones contributing 0 |
| Day13.SolvePart1 | day-13/main.go:68-77 | the total is the sum of the scores of the machines winnable with at most 100 presses per button |
| Day13.CalibrateForPart2 | day-13/main.go:60-66 | the buttons are unchanged and both prize coordinates grow by 10000000000000 |
| Day13.CalibrateKeepsDen | day-13/main.go:60-66 | calibration keeps the determinant, so independent machines stay independent |
| Day13.Calibrated | day-13/main.go:85-86 | calibrating every machine keeps their number and their independence |
| Day13.SolvePart2 | day-13/main.go:83-91 | the total is the sum of the scores of the calibrated machines, with no limit on presses |
| Day13.SmallMachineUnreachable | day-13/main_test.go:50-53 | a prize smaller than both buttons cannot be won |
| Day13.SmallMachinesReachable | day-13/main_test.go:55-112 | prizes equal to A, a multiple of A, a multiple of B, A+B and a combination score 3, 15, 6, 4 and 8; one that needs 120 presses is rejected |
| Day13.TestMachinesWinnable | day-13/main_test.go:85-100 | the first and third machines of the example score 280 and 200 |
| Day13.TestMachinesNotWinnable | day-13/main_test.go:91-105 | the second and fourth machines of the example cannot be won |
| Day13.TestInputPart1 | day-13/main_test.go:126-134 | the example's machines are independent and total 480 |
| Day14.Vector.Add | day-14/main.go:21-23 | the sum is taken coordinate by coordinate |
| Day14.Vector.Scale | day-14/main.go:25-27 | both coordinates are multiplied by the factor |
| Day14.ScaleLinear | day-14/main.go:21-27 | scaling distributes over a sum of factors, scaling by 0 gives the zero vector, which adds nothing, and addition commutes |
| Day14.Space.WrapPosition | day-14/main.go:43-54 | for a positive size each coordinate is reduced to the mathematical remainder in [0, size), Go's truncated remainder corrected by one size when negative |
| Day14.Space.FindQuadrant | day-14/main.go:56-79 | for odd sizes the result is -1 exactly on a middle row or column, and otherwise 1, 2, 3 or 4 for the top-right, top-left, bottom-left and bottom-right quarters |
| Day14.HalfOfEven | day-14/main.go:64-65 | for an odd size, Go's halving of size-1 is exact, so the middle is (size-1)/2 |
| Day14.ModUnique | day-14/main.go:43-54 | a value written as w*k + r with 0 <= r < w has remainder r and quotient k |
| Day14.WrapIsMod | day-14/main.go:44-47 | the truncated remainder, plus w when negative, is the Euclidean remainder |
| Day14.ModShift | day-14/main.go:43-54 | adding a multiple of the size does not change the wrapped coordinate |
| Day14.Robot.PositionAfter | day-14/main.go:34-37 | in a space of positive width and height the robot's position after any time, negative included, lies inside the space; `PositionAfterInSpace` gives the exact coordinates |
| Day14.PositionAfterInSpace | day-14/main.go:34-37 | after any time the robot is inside the space, at the start plus time times velocity taken modulo the size |
| Day14.PositionAtZero | day-14/main.go:34-37 | at time 0 the robot is at its wrapped starting position |
| Day14.PositionPeriodic | day-14/main.go:34-37 | positions repeat after width times height seconds |
| Day14.PeriodArith | day-14/main.go:35 | the arithmetic of one full period |
| Day14.CountIn | day-14/main.go:83-90 | a quadrant holds at most all the robots |
| Day14.CountsPartition | day-14/main.go:83-90 | every robot is counted in exactly one of the four quadrants or on a middle line, so the quadrant counts add up to at most the number of robots |
| Day14.ProductOfFour | day-14/main.go:92-95 | the product loop over four counts multiplies them |
| Day14.SolvePart1 | day-14/main.go:81-97 | the result is the product of the numbers of robots in each quadrant after 100 seconds, robots on a middle line not counted |
| Day14.PositionExample | day-14/main.go:34-37 | in the 11 by 7 space a robot is where start plus time times velocity lands modulo the size |
| Day14.PositionExamplesNoWrap | day-14/main_test.go:28-46 | the test's robots at times 0, 1 and 2 are at (1,2), (4,6) and (7,6) |
| Day14.PositionExampleWrap | day-14/main_test.go:47-52 | the robot at (2,4) with velocity (2,-3) is at (1,3) after 5 seconds |
| Day14.QuadrantExamples | day-14/main_test.go:64-108 | in a 5 by 5 space the corners are in quadrants 2, 1, 3 and 4 and cells on a middle line give -1 |
| Day15.Position.MoveAlong | day-15/main.go:126-128 | a step along any of the four directions reaches a neighbouring cell, at Manhattan distance 1 |
| Day15.MoveAlongSteps | day-15/main.go:126-128 | a step lands one cell ahead in the direction of the move, and stepping back the opposite way returns |
| Day15.Position.GPS | day-15/main.go:211-213 | for a cell in the first 100 columns the GPS coordinate lies in its row's block [100*y, 100*(y+1)), so the row is read back from it; `GPSIdentifies` adds the column |
| Day15.GPSIdentifies | day-15/main.go:211-213 | for columns below 100 two positions have the same GPS coordinate exactly when they are equal |
| Day15.SetCell | day-15/main.go:110-112 | writing a cell changes that cell, if it is on the map, and no other, and keeps the shape |
| Day15.BoxesInUpdate | day-15/main.go:110-112 | writing one cell of a row changes its box count by the new cell's box value minus the old one's |
| Day15.BoxCountUpdate | day-15/main.go:110-112 | replacing a row changes the map's box count by the difference of the rows' counts |
| Day15.SetCellBoxes | day-15/main.go:110-112 | writing a cell changes the box count by the new cell's box value minus the old one's |
| Day15.CanMove | day-15/main.go:145-172 | a cell can move only when the cell ahead is on the map and not a wall |
| Day15.MoveCells | day-15/main.go:175-199 | moving cells keeps the map's shape |
| Day15.PushFront | day-15/main.go:180-195 | clearing the way ahead keeps the map's shape |
| Day15.MoveFrame | day-15/main.go:175-199 | nothing behind the moving cell changes, the cell becomes floor and the cell ahead receives what it held |
| Day15.PushFrontFrame | day-15/main.go:180-195 | clearing the way changes nothing at or behind the moving cell |
| Day15.TwoPushFrame | day-15/main.go:185-194 | moving both halves of a wide box changes nothing at or behind the pushing cell |
| Day15.MoveIntoFloor | day-15/main.go:197-198 | into floor, a move writes the moving cell ahead and leaves floor behind |
| Day15.Ray | day-15/main.go:126-128 | k moves in a direction |
| Day15.CanMoveAlongChain | day-15/main.go:145-155 | on a map of small boxes, behind a run of boxes a push succeeds exactly when the first cell after the run is not a wall |
| Day15.HorizontalCheckReadsOneRow | day-15/main.go:157-168 | a sideways check reads only the robot's row |
| Day15.VerticalCheckNeedsBothHalves | day-15/main.go:157-168 | an upward or downward push into a wide box requires both of its halves to be movable |
| Day15.PushKeepsBoxes | day-15/main.go:175-199 | under its requires — a left or right push on any map, or any push on a map without wide boxes — a push that `CanMove` allows keeps the number of box cells and every wall, and on a map of small boxes creates no wide box |
| Day15.PushFrontKeepsBoxes | day-15/main.go:180-195 | clearing the way keeps boxes and walls and leaves the cell ahead free of boxes and walls |
| Day15.DirectionOf | day-15/main.go:131-141 | exactly the four arrow characters name a direction |
| Day15.OnlyMoves | day-15/main.go:131-141 | the filtered moves contain only arrow characters |
| Day15.RunIgnoresOtherCharacters | day-15/main.go:131-141 | characters other than the four arrows, such as the newlines between lines of moves, change nothing |
| Day15.MoveOutcome | day-15/main.go:202-209 | a possible move puts the robot one step ahead, with '@' there, floor behind it and nothing behind it changed; an impossible move changes nothing |
| Day15.RunKeepsRobot | day-15/main.go:130-143 | after any moves the robot's cell holds '@' |
| Day15.RunKeepsBoxes | day-15/main.go:130-143 | on a map of small boxes any moves, and on any map (wide boxes included) moves with no `^` or `v`, keep the number of box cells and every wall; a map of small boxes gets no wide box |
| Day15.BoxPush | day-15/main.go:202-209 | a robot with a box ahead and floor behind it pushes the box one cell on and takes its place |
| Day15.PushLeftExample | day-15/main_test.go:165-223 | in the row `#..O@..O.#` a push left moves the robot to column 3 and the box to column 2 |
| Day15.BlockedExample | day-15/main_test.go:94-107 | in the row `#O@.` a push left into a box against a wall changes nothing |
| Day15.WideBoxUp | day-15/main.go:157-199 | a robot below the left half of a wide box with floor above both halves pushes the box up one row and leaves the right half's cell empty |
| Day15.WideBoxUpExample | day-15/main.go:157-199 | the same on a constructed four-row map holding one wide box |
| Day15.ScoreWithoutBoxes | day-15/main.go:215-226 | a map without boxes scores 0 |
| Day15.ColumnWithoutBoxes | day-15/main.go:218-223 | a column without boxes scores 0 |
| Day15.ScoreCountsEveryBox | day-15/main.go:215-226 | every box, or left half of a wide box, on the map contributes its GPS coordinate to the score |
| Day15.ColumnCountsEveryBox | day-15/main.go:218-223 | the same within a column |
| Day15.ColumnNonNegative | day-15/main.go:218-223 | a column never scores below 0 |
| Day15.ScoreNonNegative | day-15/main.go:215-226 | the score is never negative |
| Day15.Grid.constructor | day-15/main.go:27-32 | the grid holds the given size, cells and robot |
| Day15.Grid.Copy | day-15/main.go:34-47 | the copy is a new grid with the same size, cells and robot |
| Day15.Grid.At | day-15/main.go:114-116 | a cell on the map reads as stored, and anything other than a wall comes from a cell on the map (off the map reads as a wall) |
| Day15.Grid.Set | day-15/main.go:110-112 | one cell is written and nothing else changes |
| Day15.Grid.MoveCellsAlongDirection | day-15/main.go:175-199 | the cells become the recursive move of the cell and everything it pushes, and nothing else changes |
| Day15.Grid.MoveRobot | day-15/main.go:202-209 | when the robot can move, the cells are moved and the robot steps ahead; otherwise nothing changes |
| Day15.Grid.ApplyMoves | day-15/main.go:130-143 | the grid ends in the state the moves lead to, one move per arrow character in order |
| Day15.Grid.FindTotalScore | day-15/main.go:215-226 | the score is the sum of the GPS coordinates of all boxes, and left halves of wide boxes, within the grid's width and height |
| Day15.LastIndex | day-15/main.go:60-64 | the last index holding the character, or -1 when none does |
| Day15.LastRobotIsLastMarker | day-15/main.go:58-67 | the robot is the last '@' in row-major order, or (0,0) when there is none |
| Day15.GridLines | day-15/main.go:50 | a grid text has at least one line |
| Day15.ReadGridText | day-15/main.go:49-69 | the cells are the lines, the width the first line's length, the height the line count, and the robot the last '@' |
| Day15.WidenAll | day-15/main.go:85-101 | every line is widened on its own |
| Day15.WidenLength | day-15/main.go:86-99 | a line of known tiles doubles in length |
| Day15.WidenAt | day-15/main.go:86-99 | tile j of a line becomes characters 2j and 2j+1 of the widened line: `[]` for a box, `##` for a wall, `@.` for the robot and `..` for floor |
| Day15.ReadGridTextPart2 | day-15/main.go:76-103 | the cells are the widened lines, the width twice the first line's length, and the robot at twice the last '@''s column |
| Day15.WidenedRobot | day-15/main.go:93-95 | on a map of known tiles with a robot, the widened robot position holds '@' |
| Day15.SolveForPart1 | day-15/main.go:228-233 | the answer is the score of the map after all moves, read from the part before the first blank line |
| Day15.SolveForPart2 | day-15/main.go:235-240 | the same for the widened map |
| Day18.FindShortestPath | day-18/main.go:35-39 | the distance is zero exactly between equal positions; `WalkAtLeastDistance` and `OpenGridWalk` show it is the shortest walk length on a grid without obstacles |
| Day18.FindShortestPathProperties | day-18/main.go:35-39 | the Manhattan distance is symmetric and changes by exactly one when either end moves one step |
| Day18.WalkStep | day-18/main.go:47-81 | a walk extends by one step into a free cell, one that `Grid.IsInBounds` (main.go:47-49) accepts and that holds no obstacle |
| Day18.DistanceStep | day-18/main.go:70-81 | one step changes the distance from the start by at most one |
| Day18.WalkAtLeastDistance | day-18/main.go:35-39 | no walk is shorter than the Manhattan distance, so the obstacle-free formula is a lower bound |
| Day18.OpenGridWalk | day-18/main.go:35-39 | without obstacles every in-bounds cell is reachable in exactly the Manhattan distance |
| Day18.ShortestIsUnique | day-18/main.go:51-86 | the shortest length, capped at MaxInt, is determined by the grid and the two ends |
| Day18.ShortestMeaning | day-18/main.go:51-86 | the result is MaxInt exactly when no walk shorter than MaxInt exists, is 0 from a cell to itself, and otherwise is at least the Manhattan distance |
| Day18.OpenGridShortest | day-18/main_test.go:8-55 | without obstacles the shortest walk is the Manhattan distance |
| Day18.WalkLeavesStart | day-18/main.go:70-74 | a walk of at least one step leaves the start through a free neighbour |
| Day18.WalledInStart | day-18/main_test.go:73-78 | a start whose four neighbours are blocked reaches no other cell, giving MaxInt |
| Day18.SetScore | day-18/main.go:80 | writing a score changes that cell's score only and keeps the table's shape |
| Day18.RowSumUpdate | day-18/main.go:80 | writing one entry changes a row's sum by the difference |
| Day18.TotalUpdate | day-18/main.go:80 | replacing a row changes the table's total by the difference of the rows' sums |
| Day18.TotalSetScore | day-18/main.go:80 | writing a score changes the total by the difference, so an improvement lowers it |
| Day18.RowSumNonNegative | day-18/main.go:52-62 | a row of non-negative scores has a non-negative sum |
| Day18.TotalNonNegative | day-18/main.go:52-62 | a table of non-negative scores has a non-negative total |
| Day18.TableTotal | day-18/main.go:52-62 | a score table's total is never negative, which bounds the search |
| Day18.InitialTable | day-18/main.go:52-64 | the start scores 0 and every other cell MaxInt, and the search invariant holds with the start queued |
| Day18.Pop | day-18/main.go:66-68 | taking the front of the queue begins its expansion with the invariant intact |
| Day18.LowerKeepsEdge | day-18/main.go:78-81 | lowering another cell's score keeps an edge relaxed |
| Day18.LowerKeepsRelaxed | day-18/main.go:78-81 | lowering another cell's score keeps a cell relaxed |
| Day18.Improve | day-18/main.go:76-81 | a better score for a free neighbour is written and the neighbour queued, keeping every score the length of a real walk and lowering none |
| Day18.Keep | day-18/main.go:72-78 | a blocked, out-of-bounds or not improved neighbour leaves everything unchanged and the edge relaxed |
| Day18.Expanded | day-18/main.go:70-83 | after the four directions the cell is relaxed, and the table total has dropped unless the queue only shrank |
| Day18.AllWalksBounded | day-18/main.go:66-85 | with the queue empty, every cell's score is at most the length of any walk to it |
| Day18.Finished | day-18/main.go:66-85 | with the queue empty, every cell's score is its shortest walk length capped at MaxInt |
| Day18.ReachedCellsAreFree | day-18/main.go:72-74 | every cell other than the start with a finite score is free and in bounds |
| Day18.FindShortestPathWithObstacles | day-18/main.go:51-86 | the result is the length of a shortest walk from start to end through free in-bounds cells, or MaxInt when there is none shorter than MaxInt |
| Day18.RowWalk | day-18/main.go:70-81 | a row of free cells is walked straight |
| Day18.StraightLineExample | day-18/main_test.go:66-71 | with obstacles off the row, (0,0) to (5,0) takes 5 steps |
| Day18.BlockedExample | day-18/main_test.go:73-78 | with (1,0) and (0,1) blocked, (5,0) cannot be reached from (0,0) |
| Day19.SumOverPositive | day-19/main.go:18-22 | a positive sum over the first n towels has a towel that is a prefix with a positive count for the rest |
| Day19.SumOverAtLeast | day-19/main.go:18-22 | the sum is at least each towel's term |
| Day19.ArrangementsPositiveIff | day-19/main.go:12-26 | a pattern has a positive count exactly when some sequence of towels, repeats allowed, concatenates to it |
| Day19.ArrangementsBasics | day-19/main_test.go:83-113 | the empty pattern counts 1; with no towels any other pattern counts 0; a pattern that is a towel counts at least 1 |
| Day19.CountMap.constructor | day-19/main.go:31 | the memo starts as {"": 1} |
| Day19.CountPossibilities | day-19/main.go:12-26 | the result is the number of ways to write the pattern as a concatenation of towels, counted by first towel and recursively for the rest; the memo keeps only true counts, gains the pattern and loses nothing |
| Day19.CountPossibleBounds | day-19/main.go:28-39 | no more patterns are possible than there are patterns, nor than the total number of arrangements |
| Day19.SolveParts | day-19/main.go:28-39 | the first result counts the patterns with at least one arrangement and the second sums their arrangements |
| Day19.StartingWith | day-19/main.go:41-53 | the towels grouped under a stripe are towels that start with it |
| Day19.GroupedByFirstStripe | day-19/main.go:41-53 | a stripe is a key exactly when some towel starts with it, and then maps to those towels in input order |
| Day19.TowelInItsGroup | day-19/main.go:41-53 | every towel is listed under its first stripe |
| Day19.GetTowelMap | day-19/main.go:41-53 | the loop builds that grouping |
| Day19.UnfinishedExample | day-19/main_test.go:108-113 | `rgbabc` with the one towel `rgb` has no arrangement |
| Day19.TwoLayoutsExample | day-19/main_test.go:114-119 | `brwrr` is laid out as b, wr, r, r and as br, wr, r with the example towels |
| Day22.GenerateNextPseudoRandomNumber | day-22/main.go:12-22 | the next secret, computed on 64-bit words as Go's `int` shifts and masks, always fits in 24 bits |
| Day22.GenerateDependsOnLowBits | day-22/main.go:12-22 | only the low 24 bits of a number decide its successor |
| Day22.GenerateExamples | day-22/main_test.go:8-49 | 123 is followed by 15887950, 16495136, 527345, 704524, 1553684, 12683156, 11100544, 12249484, 7753432 and 5908254 |
| Day22.NthSecretRange | day-22/main.go:24-30 | after at least one step the secret fits in 24 bits |
| Day22.NthSecretAdd | day-22/main.go:24-30 | a steps followed by b steps are a + b steps |
| Day22.FindNthSecretNumber | day-22/main.go:24-30 | the loop returns the secret after n applications of the generator, and the number itself for n <= 0 |
| Day22.SmallValue | day-22/main.go:45-53 | a 24-bit secret read as a signed 64-bit `int` is its non-negative value |
| Day22.SumOfSecretsBounds | day-22/main.go:45-53 | the sum of the buyers' secrets after at least one step lies between 0 and 0xFFFFFF per buyer |
| Day22.SolvePart1 | day-22/main.go:45-53 | the result is the sum over the buyers of their 2000th secret |
| Day22.PriceIsDigit | day-22/main.go:32-43 | a price, the secret's last digit under Go's `%`, is a digit 0..9 whenever the secret is not negative, which it always is after one step |
| Day22.PricesStep | day-22/main.go:37-40 | appending the next secret's price extends the list of prices by the price of the next step |
| Day22.FindFirstNPricesAndNthSecret | day-22/main.go:32-43 | for n >= 0 returns the n + 1 prices of steps 0..n and the secret after n steps; for n = -1 the single price of the starting secret and the secret itself |
| Day22.Prices | day-22/main.go:32-43 | the n + 1 prices after 0, 1, ..., n steps, price k being the last digit of the k-th secret |
| Day22.PricesList | day-22/main.go:97-100 | one list of 2001 prices per buyer, in the buyers' order |
| Day22.FirstPriceFromMeaning | day-22/main.go:55-74 | the scan from any index up to the first matching window returns the price at that window's end |
| Day22.FirstPriceFromNone | day-22/main.go:55-74 | when no window from an index on has the changes, the scan returns -1 |
| Day22.PriceWithChangesMeaning | day-22/main.go:55-74 | the selling price is the price ending the first window of four changes equal to `changes`, and -1 when there is no such window |
| Day22.SomeWindowHasFirst | day-22/main.go:60-71 | if any window matches, a first matching window exists |
| Day22.FindThePriceWithChanges | day-22/main.go:55-74 | the nested loop with early exit returns that selling price |
| Day22.PriceExamples | day-22/main_test.go:105-124 | on prices 3,0,6,5,4,4,6,4,4,2 the changes -1,-1,0,2 sell at 6 and -1,-1,0,3 are never seen |
| Day22.TotalOfBounds | day-22/main.go:84-89 | with digit prices, the total for one sequence of changes lies between 0 and 9 per buyer |
| Day22.FirstPriceFromInRange | day-22/main.go:55-74 | on digit prices, the selling price is -1 or a digit |
| Day22.TotalOfPrices.constructor | day-22/main.go:76-78 | the memoised total starts with the buyers' price lists and an empty cache |
| Day22.TotalOfPrices.Get | day-22/main.go:78-93 | returns the sum over buyers of the selling prices for `changes`, skipping buyers that never sell; the cache keeps only true totals and gains `changes` |
| Day22.Window | day-22/main.go:107-110 | the changes read at index i are the ones that window matches |
| Day22.WindowUnique | day-22/main.go:107-110 | a window matches exactly one sequence of changes |
| Day22.BestStep | day-22/main.go:111-115 | taking the larger of the best so far and a new window's total keeps it the maximum over all windows seen |
| Day22.BestNextBuyer | day-22/main.go:106-119 | after the last window of a buyer, the maximum covers all windows of that buyer |
| Day22.BestDone | day-22/main.go:106-121 | after every buyer, the best is the maximum total over all windows, or 0 |
| Day22.ListPrices | day-22/main.go:97-100 | lists, for each buyer, the 2001 prices of steps 0..2000 |
| Day22.FillChanges | day-22/main.go:108-110 | the loop fills the four changes of the window at index i |
| Day22.ScanBuyer | day-22/main.go:107-116 | scanning one buyer's windows extends the maximum to cover that buyer |
| Day22.SolvePart2 | day-22/main.go:96-122 | the result is at least the total of every window of changes that occurs in some buyer's prices and equals one of them, or is 0: the most bananas any sequence of four changes can buy |
| Day23.Names | day-23/main.go:29 | the names of a group of vertex indices, position by position |
| Day23.NamesList | day-23/main.go:22-35 | the names of every group, group by group |
| Day23.NamesListAppend | day-23/main.go:29 | appending a triangle's indices appends its three names |
| Day23.Triangles | day-23/main.go:37-50 | every group listed is a triangle: indices i < j < k with all three links present |
| Day23.RowFacts | day-23/main.go:42-46 | the innermost loop lists only triangles with the given first two corners and a smaller third |
| Day23.PairFacts | day-23/main.go:41-47 | the middle loop lists only triangles with the given first corner and a smaller second |
| Day23.AllFacts | day-23/main.go:40-48 | the outer loop lists only triangles with a smaller first corner |
| Day23.RowComplete | day-23/main.go:42-46 | every triangle with those first two corners and a smaller third is listed by the innermost loop |
| Day23.PairComplete | day-23/main.go:41-47 | every triangle with that first corner and a smaller second is listed by the middle loop |
| Day23.AllComplete | day-23/main.go:40-48 | every triangle with a smaller first corner is listed by the outer loop |
| Day23.TrianglesComplete | day-23/main.go:37-50 | every triangle of the network is listed |
| Day23.ConcatSorted | day-23/main.go:37-50 | two ordered lists, the first wholly before the second, join into an ordered list |
| Day23.RowSorted | day-23/main.go:42-46 | the innermost loop lists its triangles in increasing order |
| Day23.PairSorted | day-23/main.go:41-47 | the middle loop lists its triangles in increasing order |
| Day23.AllSorted | day-23/main.go:40-48 | the outer loop lists its triangles in increasing order |
| Day23.TrianglesSorted | day-23/main.go:37-50 | the triangles come in increasing lexicographic order of their indices, so none is listed twice |
| Day23.RowStep | day-23/main.go:42-46 | one more turn of the innermost loop appends the triangle i, j, k exactly when its three links are present |
| Day23.AppendAssoc | day-23/main.go:44 | appending to a joined list appends to its second part |
| Day23.RingExample | day-23/main_test.go:65-75 | three computers linked in a ring form the one triangle, and a path of three forms none |
| Day23.FindInterconnectedComputersOfSize3Indices | day-23/main.go:37-50 | the triple loop returns exactly the list of triangles, in increasing order |
| Day23.FindInterconnectedComputersOfSize3 | day-23/main.go:22-35 | the triple loop returns the names of exactly those triangles, in the same order |
| Day23.DoesTheComputerGroupContainLetter | day-23/main.go:52-59 | true exactly when some name in the group starts with the letter |
| Day23.WithLetterAppend | day-23/main.go:83-87 | one more group adds it to the set of groups with the letter exactly when it has the letter |
| Day23.CountIsCardinality | day-23/main.go:80-89 | over a list without repeats, the count of groups with the letter is the number of distinct such groups |
| Day23.SolvePart1 | day-23/main.go:80-89 | the result is the number of triangles with a computer whose name starts with "t" |
| Day23.FindVerticesConnectingAll | day-23/main.go:61-78 | returns, in increasing order, exactly the vertices from the group's last index on that are linked to every member |
| Day23.CliqueSize | day-23/main.go:103-127 | a group of increasing, pairwise linked vertices has at most as many members as the network has vertices |
| Day23.CliquePrefix | day-23/main.go:109-118 | every prefix of such a group is one too |
| Day23.TriangleIsClique | day-23/main.go:104 | in a network whose links go both ways, a triangle is exactly such a group of three |
| Day23.TrianglesGeneration | day-23/main.go:104 | the triangles are exactly the fully linked groups of size 3 |
| Day23.ExtendClique | day-23/main.go:110-118 | a fully linked group of at least two stays so after adding a vertex from its last index on that links to all members, in a network where self-linked computers have no other link |
| Day23.SplitClique | day-23/main.go:110-118 | every fully linked group of size k + 1 is a group of size k extended by such a vertex |
| Day23.ExtendingStep | day-23/main.go:109-119 | extending one more group keeps the next list holding exactly the extensions of the groups done so far |
| Day23.ExtendingAdd | day-23/main.go:117 | appending a fully linked group of size k + 1 keeps that property |
| Day23.ExtendingDone | day-23/main.go:107-125 | after all groups, the next list holds exactly the fully linked groups one larger |
| Day23.NextGeneration | day-23/main.go:107-119 | from all fully linked groups of size k >= 2, one round builds all of size k + 1 |
| Day23.NoLargerClique | day-23/main.go:121-123 | when there is no fully linked group of size k + 1, none is larger than k |
| Day23.GetTextFromIndices | day-23/main.go:91-101 | the text is the group's names joined with commas |
| Day23.JoinAppend | day-23/main.go:96-98 | joining one more name appends a comma and the name |
| Day23.SplitJoin | day-23/main.go:91-101 | splitting the password at commas gives back the names, when no name holds a comma |
| Day23.SolvePart2 | day-23/main.go:103-127 | the password is the comma-joined names of a fully linked group of at least three that is as large as any fully linked group |
| Day23.StrLessIrreflexive | day-23/main.go:145 | no name sorts before itself |
| Day23.StrLessTransitive | day-23/main.go:145 | name order is transitive |
| Day23.StrLessTotal | day-23/main.go:145 | of two different names one sorts first |
| Day23.InsertName | day-23/main.go:145 | inserting a name adds exactly it to the names |
| Day23.BeforeAll | day-23/main.go:145 | a name before the first of a sorted list can lead it |
| Day23.InsertNameFrom | day-23/main.go:145 | every name after insertion is the new one or an old one |
| Day23.InsertNameSorted | day-23/main.go:145 | inserting a new name into a sorted list keeps it sorted |
| Day23.SortNames | day-23/main.go:145 | sorting the names keeps every name as often as before |
| Day23.SortNamesSorted | day-23/main.go:145 | names without repeats are sorted into strictly increasing order |
| Day23.SortNamesSame | day-23/main.go:145 | sorting loses and adds no name |
| Day23.SortedDistinct | day-23/main.go:145 | a strictly sorted list has no repeats |
| Day23.Links | day-23/main.go:130-143 | one link per input line, the text before and after its first "-" |
| Day23.LinksPrefix | day-23/main.go:133-143 | the links of the first l + 1 lines extend those of the first l by line l's |
| Day23.NamedStep | day-23/main.go:135-140 | a name occurs in one more link exactly when it did before or is one of its ends |
| Day23.ListedStep | day-23/main.go:151-156 | two names are linked in one more line exactly when they were before or that line links them either way |
| Day23.Mark | day-23/main.go:154-155 | setting one entry of the square matrix to true leaves every other entry as it was |
| Day23.FillStep | day-23/main.go:151-156 | marking a link both ways keeps the matrix true exactly on the pairs linked by the lines read so far |
| Day23.SameName | day-23/main.go:152-153 | in a list without repeats, one name has one index |
| Day23.CollectStep | day-23/main.go:133-141 | adding a link's missing ends keeps the vertices exactly the names in the links read so far |
| Day23.ReadInput | day-23/main.go:129-159 | the vertices are the names in the input's lines, each once, sorted; the matrix is square and true exactly on the pairs some line links, either way round |
| Day23.ReadInputSymmetric | day-23/main.go:151-156 | every network read from an input has its links both ways |
| GoLib.Abs | day-18/main.go:28-33 | the absolute value is x or -x and never negative |
| GoLib.RemBounds | day-14/main.go:44 | Go's `%` leaves a remainder smaller than the divisor in magnitude, with the sign of the dividend |
| GoLib.RemZeroIffDivides | day-7/main.go:33-36 | Go's `%` is zero exactly when the divisor divides the number, and then Go's `/` is the exact quotient |
| GoLib.DivExact | day-13/main.go:49-50 | a quotient of an exact multiple is the multiplier |
| GoLib.MultipleBelowDivisor | day-7/main.go:33-36 | a multiple of the divisor smaller than it in magnitude is zero |
| GoLib.MulAtLeast | day-13/main.go:49-50 | multiplying a natural number by a positive one does not decrease it |
| GoLib.AbsMul | day-13/main.go:49-50 | the magnitude of a product is the product of the magnitudes |
| GoLib.Pow10 | day-11/main.go:35 | every power of ten is at least 1 |
| GoLib.Pow10Add | day-11/main.go:35-37 | 10^(m+n) is 10^m times 10^n |
| GoLib.DigitValue | day-10/main.go:135 | a digit character has a value below 10 |
| GoLib.DigitChar | day-7/main.go:59 | the character for a digit is a digit character whose value is that digit |
| GoLib.DigitsValue | day-1/main.go:17 | a string of k digits has a value below 10^k |
| GoLib.NatToString | day-11/main.go:22 | the decimal rendering of a natural number is a non-empty string of digits without a leading zero |
| GoLib.Itoa | day-11/main.go:22 | the decimal rendering of an integer, as `fmt.Sprint` writes it, is never empty |
| GoLib.DigitsValueOfNatToString | day-1/main.go:17 | reading back the decimal rendering of a natural number gives the number |
| GoLib.NatToStringInjective | day-11/main.go:22 | different natural numbers render differently |
| GoLib.NatToStringLength | day-11/main.go:22 | a number has k digits exactly when it is below 10^k and, for k > 1, at least 10^(k-1) |
| GoLib.MaxSigned | day-2/main.go:17 | the largest value of an 8-, 32- or 64-bit signed integer is at least 127 |
| GoLib.MinSigned | day-2/main.go:17 | the smallest value of such an integer is minus the largest minus one |
| GoLib.ParseInt | day-1/main.go:17-24 | `strconv.ParseInt` in base 10 reports success only with a value in the range of the bit size |
| GoLib.ParseIntItoa | day-1/main.go:17-24 | parsing the decimal rendering of an in-range number succeeds and gives the number back |
| GoLib.ParseIntOneChar | day-10/main.go:135 | parsing one character succeeds exactly on a digit, with its value, and otherwise gives 0 and an error |
| GoLib.Index | day-5/main.go:20-21 | `slices.Index` is -1 exactly when the element is absent, and otherwise the position of its first occurrence |
| GoLib.IndexFrom | day-5/main.go:28 | the search from a position finds the first occurrence of the separator there or later, or -1 when there is none |
| GoLib.Cut | day-5/main.go:28 | `strings.Cut` either finds the separator, and the text is the part before, the separator and the part after, with no earlier occurrence, or reports it absent and returns the whole text |
| GoLib.CutPrefix | day-19/main.go:19 | `strings.CutPrefix` reports whether the prefix is present and returns the text without it, or the text unchanged |
| GoLib.Split | day-1/main.go:29 | `strings.Split` with a one-character separator always gives at least one piece |
| GoLib.SplitFrom | day-1/main.go:29 | splitting with a piece in progress gives at least one piece |
| GoLib.JoinSplitFrom | day-1/main.go:29 | joining the pieces with the separator gives back the piece in progress followed by the text |
| GoLib.JoinSplit | day-1/main.go:29 | joining the pieces of a split with the separator gives back the text |
| GoLib.SplitFromPieces | day-1/main.go:29 | no piece holds the separator when the piece in progress does not |
| GoLib.SplitPieces | day-1/main.go:29 | no piece of a split holds the separator |
| GoLib.SplitFromNoSeparator | day-1/main.go:29 | text without the separator extends the piece in progress into the one piece |
| GoLib.SplitNoSeparator | day-23/main.go:130 | text without the separator splits into itself alone |
| GoLib.SplitFromCount | day-1/main.go:29 | a split has one piece more than the text has separators, whatever the piece in progress |
| GoLib.SplitCount | day-1/main.go:29 | a split has one piece more than the text has separators |
| GoLib.SplitFromFirst | day-1/main.go:16-17 | with a piece in progress, the first piece of x, separator, y is that piece followed by x, and the rest split y |
| GoLib.SplitFirst | day-1/main.go:16-17 | splitting x, separator, y where x has no separator gives x followed by the pieces of y |
| GoLib.SplitFromLast | day-1/main.go:21 | with a piece in progress, the last piece of x, separator, y is y when y has no separator |
| GoLib.SplitLast | day-1/main.go:21 | the last piece of x, separator, y is y when y has no separator |
| GoLib.ItoaChars | day-1/main.go:16-21 | the decimal rendering holds only digits, apart from a leading minus sign |
| Sorting.Insert | day-1/main.go:47-48 | inserting an element adds exactly it and lengthens the list by one |
| Sorting.InsertSorted | day-1/main.go:47-48 | inserting into an ascending list keeps it ascending |
| Sorting.SortedCons | day-1/main.go:47-48 | an element no larger than every element of an ascending list can lead it |
| Sorting.LowerBound | day-1/main.go:47-48 | a bound on every element of a multiset bounds every element of a list holding it |
| Sorting.Sort | day-1/main.go:47-48 | `slices.Sort` keeps every element as often as before |
| Sorting.SortIsSorted | day-1/main.go:47-48 | the sorted list is ascending |
| Sorting.SortedUnique | day-1/main.go:47-48 | two ascending lists with the same elements are equal, so the sorted result is the only one possible |
| Sorting.SortPermutation | day-1/main.go:47-48 | lists with the same elements sort to the same list |
| Sorting.SortSorted | day-1/main.go:47-48 | sorting an ascending list leaves it as it is |

## Left out

- Every day: `main`, the embedded `input.txt` and all printing are not modelled; input text is a parameter.
- Every day: Go's 64-bit `int` is modelled as an unbounded integer except where a day says otherwise (the day 22 generator works on 64-bit words); overflow is not modelled.
- Every day: strings are sequences of characters; Go indexes bytes, which coincides on the ASCII puzzle inputs.
- Day01.ParseInputLine: a field that does not parse ends the Go program through `log.Fatalln`; the model requires every line to parse instead.
- Day02.GetRemovedList: accepts an empty `values` and returns no values; Go's `make([]int, 0, len(values)-1)` (day-2/main.go:64) panics on a negative capacity there. The only caller passes an index below `len(values)`, so it never passes an empty list.
- Day02.AreValuesSafe: requires at least one value, because `make` with length -1 panics in Go; every line yields at least one field, so the solver never reaches that case.
- Day02.SafeReportCount: the function-valued `safeFn` parameter is a `Mode` selecting one of the two rules.
- Day03.GetMulValueIfStartsWith: `fmt.Sscanf` is not modelled step by step; the model states the grammar the Sscanf call plus the re-rendering check accept: "mul(", a canonical decimal below 1000, ",", another, ")".
- Day03.TotalMulValue: Go's `range` over a string visits rune starts; the model visits every character, which is the same on ASCII input.
- Day04.CheckStartsWithUsingDirection: requires a rectangular grid. Go takes the width from the first line (day-4/main.go:27), so both end cells can pass its bounds check on a shorter later line. Go then panics only if the letter loop reads past that line's end before any letter mismatches (day-4/main.go:35-36); otherwise it returns false. The model does not reproduce that mix of panic and false.
- Day04.IsXmasCross: requires a rectangular grid that is not a single line; Go reads the width from `lines[1]`, which panics on one line.
- Day04.CheckStartsWithUsingDirection: the Go rule is a closure built once per direction; the model takes the direction and the word as parameters and evaluates the closure's body.
- Day05.ReorderUpdates: Go loops until the update is in order, which never happens with cyclic rules; the model bounds the passes by a `fuel` parameter and reports whether it finished.
- Day05.FindSumOfMedians: because of that bound the result is an `Option`, `None` when some reordering did not finish within the fuel.
- Day06.FindGaurdPathLength: Go loops until the guard leaves the grid, forever when it is caught in a loop; the model bounds the moves by `fuel`, and its flag holds exactly when one of those moves took the guard out of the grid (Day06.PatrolMeaning).
- Day06.FindGaurdPathLength: Go passes the guard by value; the model moves the `Guard` object it is given.
- Day06.Guard.CountPositions: the count of repeated visits that Go prints is not modelled.
- Day06.FindNextObstacle: `&obstacle` is read with Go 1.22 loop-variable semantics, each iteration having its own variable; under older Go every address taken would be that of the last obstacle.
- Day06.WalkAvoidsObstacles: needs both sides of the grid below 100000000, the cap Go starts the minimum distance at; a farther obstacle is never chosen.
- Day06.Rotate90: requires one of the four directions; Go panics on any other.
- Day06.GetInputGrid: Go's `range` over a row visits byte offsets of runes; the model visits characters, which is the same on ASCII input.
- Day07.Op.Reverse: requires `num != 0` for `*`, where Go divides by zero and panics; the digit count of `\|\|` is computed on integers instead of `math.Log10`, and `num <= 0`, which Go rejects through a zero power, is rejected directly.
- Day07.IsTheTotalPossible: requires at least one number or no operators. With no numbers, Go's first access is `nums[len(nums)-1]` inside the operator loop (day-7/main.go:72), which panics; with no operators as well it returns false without indexing, as the model does. It also requires no zero after the first number when `*` is among the operators. Go divides by such a zero only when its search reaches `MulOp.Reverse` for it (day-7/main.go:33, 71-77), which it may never do when an earlier operator already succeeds (total 5, numbers 5 0, operators `+` then `*` gives true in Go); the requires is therefore wider than Go's panic and excludes those inputs too. Puzzle inputs hold no zero operands.
- Day07.PossibleIff: proved for positive numbers only; with zeros or negatives an operator can be undone in more than one way and the backward search may miss a choice.
- Day07.FindTotalOfValidEquations: int64 overflow of the sum is not modelled.
- Day07: ParseEquationText and ParseEquations, which read the puzzle text and stop the program on a malformed number, are not modelled; equations are given as values.
- Day08.FindAllPointsAlongSlope: requires distinct antennas; Go loops forever when both are the same in-bounds position.
- Day08.FindAllAntiNodes: the node finder Go passes as a function value is the enumeration `NodeFinder`; for the second part every frequency's positions must be distinct, which `CellsWithDistinct` proves for grids read by `ReadInputGrid`. The order in which Go visits the map is left open: the model iterates over the map's keys in an unspecified order and states the result as a set.
- Day08.ReadInputGrid: Go's `range` over a line visits byte offsets of runes; the model visits characters, which is the same on ASCII input.
- Day09.ComputeDiskChecksumPart1: the guard `len(input) <= 2` reads the program's embedded input rather than the argument; the model computes the checksum of the argument.
- Day09.ComputeDiskChecksumPart2: the same guard is left out for the same reason.
- Day09.RearrangeDiskByCopyWholeFiles: the space a moved file leaves behind is not returned to the gaps, as in Go; the model follows Go.
- Day09.GetDiskFromInput: Go's `range` over the input visits byte offsets of runes; the model visits characters, which is the same on ASCII input.
- Day10.Grid.FindTotalScore: Go computes each trailhead's score in its own goroutine and adds the results in arrival order; the model adds them in the order of the trailheads, which gives the same sum. The score function Go passes is the enumeration `ScoreFinder`.
- Day10.Grid.FindReachableTops: requires a well-formed grid whose heights are at most 9, which `GridOfShape` proves for every rectangular input; Go indexes out of range on ragged input.
- Day10.Grid.FindPossibleTrails: the same requirement; it also makes the search finite, since every queued position is one higher than the one that queued it.
- Day10.ReadInput: Go's `range` over a line visits byte offsets of runes; the model visits characters, which is the same on ASCII input.
- Day11.BlinkCounter.GetCountAfterBlinks: requires `blinks >= 0`. Go's recursion (day-11/main.go:40-46) stops only when the count reaches 0, so a negative count recurses until the stack overflows; the puzzle only asks for 25 and 75 blinks.
- Day11.BlinkCounter.GetTotalElementsAfterBlinks: requires `blinks >= 0` as well; with a negative count Go returns 0 for an empty list and otherwise recurses without end through GetCountAfterBlinks.
- Day11.BlinkCounter.GetTotalElementsAfterBlinks: the package-level `BlinkCache` is a field of a `BlinkCounter` object; the counts are unbounded integers here, so overflow of Go's 64-bit `int` totals is not modelled.
- Day11.ApplyBlinkRule: the power of ten is computed on integers instead of `math.Pow10`; the two agree for the exponents an int64 can need (at most 10).
- Day11.CountExamples: the test's larger cases (125 after 5 blinks, 125 17 after 25 and 26 blinks) are not proved; the counts are too large to unfold.
- Day12.Grid.SolveForPart2: scores regions with the corrected side count `CountSides`; the count as written is `NumSides`, kept for the finding below.
- Day12.Grid.FindContainingRegion: the contract states which cells the region holds, not the breadth-first order in which Go lists them.
- Day12.Grid.FindTotalScore: the score function Go passes is the enumeration `Scoring`; the regions are returned as a ghost result so that the contract can name them.
- Day12.Grid.FindTotalScore: requires a rectangular grid (Go indexes out of range on ragged input); `GridOfShape` says when a read grid is one.
- Day12.ReadInput: Go converts each line to runes; the model keeps characters, which is the same on ASCII input.
- Day13.GetMinimumScore: requires a non-zero determinant in place of Go's floating-point parallel test, which panics; buttons whose ratios differ by less than 0.01 but are independent panic in Go and are solved here.
- Day13.NegativeCountsAccepted: Go accepts negative press counts, which the puzzle does not allow; the model follows Go and this lemma records it.
- Day13.ReadInput: the `fmt.Sscanf` reader is not modelled; machines are given as values.
- Day13.SolvePart2: int64 overflow of the products is not modelled; integers are unbounded.
- Day14.Space.FindQuadrant: requires odd width and height; Go panics on even ones.
- Day14.Space.WrapPosition: requires non-zero sizes, where Go would divide by zero; the contract states the result for positive sizes, the only ones the program uses.
- Day14: GenerateSpaceImage, which draws a frame to a PNG file, the `fmt.Sscanf` reader ReadInput and the frame loop of `main` are not modelled; they are output and input.
- Day15.Grid.At: reading off the map gives a wall, and Day15.Grid.Set off the map does nothing; Go indexes out of range there. Maps framed by walls, as the puzzle's are, never reach those cells.
- Day15.PushKeepsBoxes: requires a left or right push or a map without wide boxes, so an up or down push of a wide box (day-15/main.go:185-194) is not covered. There Go moves the far half's whole push tree first and then the near half's, and both trees can reach the same box. The near half's `CanMove` was decided on the map before the far tree moved. Proving that it still holds afterwards, and that no box is then moved twice or overwritten, needs an invariant over the set of cells both trees reach. The model does not state that invariant. `WideBoxUp` checks the single-box case only.
- Day15.RunKeepsBoxes: for a map with wide boxes, proved only for runs with no `^` or `v`, for the reason given under Day15.PushKeepsBoxes.
- Day15.Grid.State: the test helper that prints the map is not modelled.
- Day15.Grid.ApplyMoves: Go's `range` over the moves visits runes; the model visits characters, which is the same on ASCII input.
- Day15.ReadGridTextPart2: characters other than the four known tiles are dropped, as in Go.
- Day18.FindShortestPathWithObstacles: requires the start and the end to be in bounds. Go reads `scores[end.X][end.Y]` (day-18/main.go:85) and, once a neighbour of an out-of-bounds start is open, `scores[next.X][next.Y]` (day-18/main.go:77); both index out of range and panic, which the model does not reproduce.
- Day18.FindShortestPathWithObstacles: MaxInt stands for "unreachable"; the contract says no walk shorter than MaxInt exists, and does not exclude an absurdly long walk, which a grid small enough to store cannot have.
- Day18.FindShortestPathWithObstacles: the test cases "move around the obstacle" (7) and the 7 by 7 example (22) are not proved.
- Day18: ReadInput, a `fmt.Sscanf` reader, and `main`'s search for the first blocking obstacle after 1024 are not modelled; they are input and output around the search.
- Day19.GetTowelMap: requires every towel to be non-empty; Go reads `towel[0]` (day-19/main.go:44), which panics on an empty towel.
- Day19.CountPossibilities: requires every towel to be non-empty, since Go recurses forever on an empty towel, and requires the memo to hold "" as `SolveParts` seeds it; without that seed Go counts 0 for every pattern.
- Day19.CountPossibilities: the memo is a `CountMap` object passed by reference like Go's map; int overflow of the counts is not modelled.
- Day19.TwoLayoutsExample: exhibits the two layouts of the test; that they are the only two, giving the test's count of 2, is not proved, nor is the test's `bbrgwb` case.
- Day19: ReadInput, which splits the text at ", " and newlines, is not modelled; towels and patterns are given as values. Go indexes towels by byte; the model uses characters, which is the same on ASCII input.
- Day22.SolvePart1: the sum is an unbounded integer; Go's `int` sum cannot overflow on a realistic buyer count (each term is below 2^24), which is not stated as a bound.
- Day22.GenerateExamples: the test's 2000-step values (1 to 8685429 and the others) and the part 1 and part 2 sample totals (37327623 and 23) are not proved; unrolling 2000 steps is beyond the solver.
- Day22.FindFirstNPricesAndNthSecret: requires `n >= -1`; for a smaller n Go's `make([]int, 0, n+1)` (day-22/main.go:33) panics on a negative capacity. The only caller asks for 2000 steps.
- Day22.SolvePart2: the progress lines printed after each buyer are left out.
- Day22: ReadInput, which parses one number per line with `fmt.Sscanf`, is not modelled; numbers are given as 64-bit words.
- Day23.SolvePart2: requires links both ways, and that a computer linked to itself is linked to no other. Go's search starts each extension at the group's last index (day-23/main.go:63), so a self-linked computer that ends a group and is linked to all its members extends that group by itself again and again, forever; a self-link on a computer with no other link never enters a group and is harmless, as the requires allows.
- Day23.SolvePart2: requires at least one triangle; without one Go indexes the first of an empty list of groups and panics.
- Day23.SolvePart2: states that the password comes from some largest fully linked group, not which one Go picks when there are several.
- Day23.SortNames: `slices.Sort` on the names is modelled by an insertion sort on strings ordered character by character; Go compares bytes, which agrees on ASCII names.
- Day23.RingExample: the test's larger sample (its twelve triangles, 7 for part 1 and `co,de,ka,ta` for part 2) is not proved.
- Day23: `Graph.Display`, which only renders the matrix as text, is not modelled.

## Findings

| source | as written | input that shows it | evidently intended | confidence | as-written member | corrected member |
|---|---|---|---|---|---|---|
| day-12/main.go:102-125 | a fence counts as a new side unless a fence facing the same way on a neighbour listed earlier in the region joins it, so the count depends on the order in which the region's cells are listed | the region `{{0,0},{2,0},{1,0}}` counts 6 sides while `{{0,0},{1,0},{2,0}}` counts 4; the breadth-first search lists the `X` region of the map `.XXX`, `XX.X`, `.XXX` in an order that gives 13 sides instead of 12 (this map example is traced by hand from the Go text; only the three-cell region is proved) | each straight side is counted once whatever the order of the cells | not executed | Day12.NumSides, Day12.NumSidesDependsOnOrder | Day12.CountSides, Day12.SidesIgnoreOrder |

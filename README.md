# Six puzzle solvers, modelled and proved in Dafny

This project models six small Python puzzle solvers, `day1` to `day6`. Each one reads puzzle text, parses it and computes an integer answer:

- **Dial** (`day1/day1.py`): a dial with 100 positions starts at 50 and turns left or right by parsed rotations such as `L68`. Part 1 counts the rotations that end on 0. Part 2 counts every single click that lands on 0, using a closed form per rotation.
- **RepeatedIds** (`day2/day2.py`): sums the numbers, over comma-separated inclusive ranges `a-b`, whose decimal string is a block repeated twice (part 1) or at least twice (part 2).
- **Joltage** (`day3/day3.py`): a monotonic stack keeps the largest k-digit order-preserving selection of each line. The answer is the sum over the non-blank lines.
- **PaperRolls** (`day4/day4.py`): counts the `@` cells of a grid with fewer than four `@` neighbours among their eight. The second part removes such cells in simultaneous passes until none is left, and counts the removals.
- **Freshness** (`day5/day5.py`): parses ranges and ingredient IDs from two blank-line-separated sections. Part 1 counts the IDs inside some inclusive range. Part 2 sorts and merges the ranges and counts the IDs the union covers.
- **Worksheet** (`day6/day6.py`): pads the lines, splits the columns into problems at all-blank columns, and finds each problem's operator in the last row. Part 1 reads the operands as horizontal digit runs. Part 2 reads them as columns, right to left. It then sums the problem values.

Two shared modules hold what the Python gets from its runtime:

- `Results` holds the `Option` and `Result` types, and two loop shapes the solvers share. `Gather` is a parsing loop that skips blank items, keeps parsed values and stops at the first failure (day2, day3, day5). `CountTrue` counts the set flags of a list (day1, day5). `Sum` is Python's `sum` over integers (day3, day6).
- `Text` holds `str.strip` with Python's whitespace set, `str.split`, `str.rsplit` on one character, `int()` on optional-sign ASCII decimal literals, and `str(n)` for naturals.

A `ValueError` (or an `IndexError` on a ragged grid) becomes `None` or `Err`.

Each core file takes the form of its source:

- Loops that update variables are methods with loop invariants. `best_k_digits` keeps its push/pop stack. `day4_remove_all` mutates an `array2<char>` in place. `day5_part2` rewrites the last merged range or appends a new one. The `day6` group scan is a `while` loop with `continue`.
- Each such method is proved equal to a reference function, and the properties are proved about that function.
- Comprehensions and slicing are functions.

## Model

| member | source | states |
|---|---|---|
| Results.GatherStep | day2/day2.py:38-42 | a skipped item leaves the kept values as they are, a kept item appends its value and a failing item makes the whole loop fail |
| Results.GatherAllKeep | day5/day5.py:38 | when every item yields a value, the loop returns all of the values in order |
| Results.CountTrueIndices | day1/day1.py:74-76 | the running count of set flags equals the number of positions whose flag is set |
| Text.StripSpec | day1/day1.py:41 | `strip()` removes exactly a whitespace prefix and suffix, and what remains starts and ends with a non-space |
| Text.StripEmpty | day1/day1.py:41-43 | a line strips to the empty string exactly when every character is whitespace |
| Text.JoinSplit | day2/day2.py:38 | joining the pieces of `split(sep)` with `sep` gives back the original string |
| Text.SplitPiecesFree | day2/day2.py:38 | no piece of `split(sep)` contains `sep` |
| Text.SplitAtDash | day2/day2.py:41 | two digit strings joined by one `-` split on `-` into exactly those two strings |
| Text.RFindCharSpec | day5/day5.py:34 | the position `rsplit(c, 1)` cuts at holds `c`, and no later position does |
| Text.ParseIntAccepts | day1/day1.py:52 | `int()` succeeds exactly when the stripped text splits as a sign (none, `+` or `-`) followed by one or more digits |
| Text.ParseIntValue | day1/day1.py:52 | stripped text that is a sign and digits parses to the digits' decimal value, negated exactly when the sign is `-` |
| Text.ParseIntString | day1/day1.py:52 | `int()` reads back every integer's decimal rendering |
| Text.ParseDigits | day2/day2.py:3 | `int()` of a digit string is its positional decimal value |
| Text.DecimalString | day2/day2.py:3 | `str(n)` is a non-empty digit string whose value is `n`, with no leading zero unless `n` is 0 |
| Dial.ParseRotationCases | day1/day1.py:36-55 | a blank line is the empty-line error and only it is. A first character outside `LlRr` is the direction error. `L`/`l` gives a left rotation. With a valid direction letter, the line parses exactly when `int()` accepts the rest of the stripped line, and the distance is that integer |
| Dial.ParseFormat | day1/day1.py:36-55 | parsing the canonical text of any rotation gives that rotation back |
| Dial.NonBlankSpec | day1/day1.py:63 | the non-blank filter keeps the order, distributes over concatenation, drops only the blank lines and keeps every non-blank one |
| Dial.ParseRotationsOk | day1/day1.py:58-63 | a successful parse has one rotation per non-blank line, in order, each equal to parsing that line |
| Dial.ParseRotationsErr | day1/day1.py:58-63 | a failed parse reports the error of the first non-blank line that fails, and every earlier line parses |
| Dial.ParseRotationsSucceeds | day1/day1.py:58-63 | the whole list parses exactly when every non-blank line parses |
| Dial.ParseRotationsFormat | day1/day1.py:58-63 | parsing the rendered lines of any list of rotations gives that list back |
| Dial.PositionAfter | day1/day1.py:79-85 | the dial position after any prefix of the rotations lies in `[0, 100)` |
| Dial.ZeroStopsCounts | day1/day1.py:74-76 | the running count equals the number of rotation indices whose resulting position is 0 |
| Dial.Day1 | day1/day1.py:71-88 | the loop returns the number of rotations after which the dial points at 0 |
| Dial.ClickHitsZero | day1/day1.py:105-113 | click `k` from a position reaches 0 exactly when `k` is congruent to `base` modulo 100 |
| Dial.FirstZeroIsFirst | day1/day1.py:106-113 | `base` lies in `1..100`, click `base` reaches 0 and no earlier click does |
| Dial.ClosedZerosCounts | day1/day1.py:114-115 | the closed form `1 + (d - base) // 100`, or 0 when `d < base`, equals the brute-force count of clicks in `1..d` that land on 0 |
| Dial.Day2 | day1/day1.py:91-123 | the loop returns the number of individual clicks over all rotations that land on 0 |
| RepeatedIds.HalvesEqualIsDouble | day2/day2.py:1-12 | part 1 holds exactly when the decimal string is some non-empty block written twice |
| RepeatedIds.HasRepeatedPrefixIsRepetition | day2/day2.py:15-29 | the prefix search of part 2 succeeds exactly when the string is some non-empty block repeated at least twice |
| RepeatedIds.InvalidPart2 | day2/day2.py:15-29 | the early-return search loop decides the part-2 predicate |
| RepeatedIds.Part1ImpliesPart2 | day2/day2.py:1-29 | every number invalid in part 1 is invalid in part 2 |
| RepeatedIds.SingleDigitValid | day2/day2.py:7-8 | no single-digit number is invalid in either part |
| RepeatedIds.ParseRangeFormat | day2/day2.py:41 | an item written `start-end` parses back to that range |
| RepeatedIds.ParseItemsStep | day2/day2.py:38-42 | a blank item is skipped, a parsable item appends its range and a malformed one fails the whole parse |
| RepeatedIds.ReadRanges | day2/day2.py:37-42 | the parsing loop computes the reference parse of the items |
| RepeatedIds.RangeSum | day2/day2.py:48-50 | the inner loop returns the sum of every number from `start` to `end`, both included, that the chosen predicate marks invalid |
| RepeatedIds.SumInvalid | day2/day2.py:45-52 | the nested loops return the sum of every number in every inclusive range that the chosen predicate marks invalid |
| RepeatedIds.RangeTotalSingleDigits | day2/day2.py:47-50 | a range containing only single-digit numbers contributes nothing |
| RepeatedIds.TotalPart1AtMostPart2 | day2/day2.py:45-52 | the part-1 total never exceeds the part-2 total on the same ranges |
| RepeatedIds.Solve | day2/day2.py:32-52 | `solve` returns the invalid-number sum of the parsed ranges, or fails when an item is malformed |
| Joltage.BestSelectionUnique | day3/day3.py:10-14 | the lexicographically greatest k-subsequence is unique |
| Joltage.MaxSelIsBest | day3/day3.py:10-14 | the reference selection is a k-subsequence of the line, and no k-subsequence is lexicographically greater |
| Joltage.LexLeValue | day3/day3.py:35 | on digit strings of equal length, lexicographic order is numeric order |
| Joltage.MaxSelLargest | day3/day3.py:10-14 | the reference selection is a digit string whose value is the largest over all order-preserving k-digit picks |
| Joltage.StepPush | day3/day3.py:26-31 | popping strictly smaller digits while enough digits remain, then pushing, keeps the stack invariant: a subsequence of the prefix that is non-increasing and lexicographically dominant, of length between `k - remaining` and `k` |
| Joltage.KeepLargest | day3/day3.py:24-34 | the stack loop ends holding exactly the best k-digit selection, so the truncation to `k` changes nothing |
| Joltage.BestKDigits | day3/day3.py:9-35 | `k <= 0` or a stripped line shorter than `k` gives 0. Otherwise the result is `int()` of the greatest k-selection of the stripped line |
| Joltage.JoltageLargest | day3/day3.py:9-15 | on a stripped digit line of at least `k > 0` characters, `best_k_digits` returns the largest value of any order-preserving k-digit selection |
| Joltage.SumJoltageStep | day3/day3.py:41-44 | a blank line adds nothing, a line's value is added to the running total and a failing line fails the sum |
| Joltage.Day3 | day3/day3.py:38-45 | the loop returns the sum of `best_k_digits` over the lines that are not blank |
| PaperRolls.CountOffsetsMonotone | day4/day4.py:30-36 | counting over more of the eight offsets never gives fewer neighbours, so stopping at 4 keeps the answer |
| PaperRolls.AdjacentRolls | day4/day4.py:29-37 | the early-exit count is at most 4 and is below 4 exactly when the cell has fewer than four `@` neighbours inside the grid |
| PaperRolls.CollectRow | day4/day4.py:59-71 | one row of a pass appends that row's accessible `@` cells, left to right, each once |
| PaperRolls.CollectAccessible | day4/day4.py:57-71 | one pass collects each accessible `@` cell of the current grid exactly once, all inside the grid |
| PaperRolls.CountRow | day4/day4.py:26-38 | one row adds the number of its accessible `@` cells to the running total |
| PaperRolls.Day4 | day4/day4.py:9-39 | an empty grid gives 0, a ragged grid fails, otherwise the result is the number of `@` cells with fewer than four `@` neighbours |
| PaperRolls.ClearRolls | day4/day4.py:77-78 | clearing selected rolls keeps the grid's shape and removes exactly those cells from the set of rolls |
| PaperRolls.RemovedSettles | day4/day4.py:56-81 | the fixpoint leaves no accessible roll, never adds a roll, and removes exactly the difference between the initial and final roll counts, which is at most the initial count |
| PaperRolls.RemovedFirstPass | day4/day4.py:58-74 | the total removed is at least the first-pass (`day4`) count, and it is zero exactly when no roll is accessible at the start |
| PaperRolls.Day4RemoveAll | day4/day4.py:42-81 | an empty grid gives 0, a ragged grid fails, otherwise the result is the total removed by the pass-by-pass fixpoint |
| Freshness.ParseRangeLineFormat | day5/day5.py:29-31 | a line `a-b` of naturals parses to the range `(a, b)` |
| Freshness.ParseRangeLineDropsSign | day5/day5.py:26-31 | a leading `-` is dropped before the split, so `-a-b` parses to `(a, b)` |
| Freshness.ParseRangeLinesStep | day5/day5.py:21-36 | a blank range line is skipped, a parsable one appends its range and a malformed one fails the read |
| Freshness.ParseIdsFormat | day5/day5.py:38 | rendering a list of IDs one per line and parsing it gives the list back |
| Freshness.ReadInput | day5/day5.py:11-40 | the input parse follows the reference, and content without exactly two blank-line-separated sections fails |
| Freshness.IsFresh | day5/day5.py:43-48 | the early-return loop answers whether some range contains the ID, inclusive at both ends |
| Freshness.FreshCountIndices | day5/day5.py:54-58 | the reference count equals the number of ID positions that some range covers |
| Freshness.CountFresh | day5/day5.py:54-58 | the loop returns the number of ID positions that some range covers |
| Freshness.Day5 | day5/day5.py:51-58 | a malformed input fails, otherwise the result is the number of fresh IDs |
| Freshness.CoveredCovers | day5/day5.py:43-48 | an ID is in the union of the ranges exactly when some range contains it |
| Freshness.SameRangesSameCover | day5/day5.py:71 | the union depends only on which ranges occur, not on their order or duplicates |
| Freshness.SortRanges | day5/day5.py:71 | `sorted` returns an ordered permutation of the ranges |
| Freshness.MergeOneSpec | day5/day5.py:76-82 | folding one range into a merged list keeps it separated and ordered by start, adds exactly that range's IDs to the union, and appends the range when it neither overlaps nor touches the last one |
| Freshness.MergeSorted | day5/day5.py:74-82 | the in-place merge returns between 1 and `n` ranges, ordered by start, each more than one apart from the next, covering the same IDs. It keeps ranges valid and returns an already separated list unchanged |
| Freshness.SeparatedSize | day5/day5.py:85-87 | for separated, valid ranges the sum of `end - start + 1` is the size of the union |
| Freshness.PermutationCover | day5/day5.py:71 | a permutation of the ranges covers the same IDs and is valid when the original is |
| Freshness.AddLengths | day5/day5.py:85-87 | the counting loop returns the sum of the merged range lengths |
| Freshness.MergedTotal | day5/day5.py:67-87 | no ranges gives 0, and when every range has `start <= end` the total is the number of distinct IDs the ranges cover |
| Freshness.Day5Part2 | day5/day5.py:61-89 | a malformed input fails, no ranges gives 0, and valid ranges give the size of their union |
| Worksheet.MaxWidth | day6/day6.py:25 | the width is at least every line's length and equals some line's length |
| Worksheet.PadSpec | day6/day6.py:27 | after padding to the maximum width every line has that width, and each cell holds the original character or a space past the line's end |
| Worksheet.BlanksSpec | day6/day6.py:30 | a column is blank exactly when every line is too short to reach it or has a space there |
| Worksheet.GroupsSpec | day6/day6.py:32-42 | groups are maximal runs of non-blank columns, in increasing order with a blank column between neighbours, and every non-blank column lies in exactly one group |
| Worksheet.FindGroups | day6/day6.py:32-42 | the scan loop with `continue` returns exactly the reference list of groups |
| Worksheet.RunsSpec | day6/day6.py:50 | each `\d+` match is a non-empty digit string, and together the matches are exactly the string's digits in order |
| Worksheet.RunsOfLayout | day6/day6.py:50 | the matches are maximal: non-empty digit words laid out between digit-free gaps (the inner gaps non-empty, of any width) come back as exactly those words, in order |
| Worksheet.RowNumbers | day6/day6.py:46-51 | the nested loops collect the digit runs of every non-last row, top to bottom and left to right |
| Worksheet.ColumnNumbers | day6/day6.py:109-115 | the right-to-left loop takes one number per column, from that column's digits top to bottom, and skips columns without digits |
| Worksheet.FirstOpFirst | day6/day6.py:55 | no `+` or `*` occurs before the position `re.search` reports, nor anywhere if it reports none |
| Worksheet.OperatorSpec | day6/day6.py:54-63 | an all-space segment is the no-operator error and the only error. A segment with a `+` or `*` yields the first one. Otherwise the result is the first non-space character |
| Worksheet.GroupValueSpec | day6/day6.py:54-72 | a blank operator segment is the no-operator error. A group without operands is 0. With operands, a first `+` in the segment gives their sum and a first `*` their product, and any `+` or `*` in the segment means such a first one exists. The fallback character always leads to the unknown-operator error |
| Worksheet.TotalStaysErr | day6/day6.py:44-74 | once a group has failed, adding further groups leaves the sheet's result at that error |
| Worksheet.TotalStep | day6/day6.py:44-74 | an evaluated group adds its value to the running total; a failing group makes its error the result of the whole sheet |
| Worksheet.SumGroups | day6/day6.py:44-76 | the total loop returns the sum of the group values, or the first group's error |
| Worksheet.Solve | day6/day6.py:11-140 | both parts return 0 on no lines, and otherwise the reference answer over the padded sheet |
| Worksheet.EvaluateReverse | day6/day6.py:65-72 | the value of a group does not depend on the order of its operands |
| Worksheet.OneRowReadingsAgree | day6/day6.py:48-51 | with one operand row and no two adjacent digits, the horizontal operands are the column operands reversed, and both parts give the same group value |
| Worksheet.SingleProblemRoundTrip | day6/day6.py:11-76 | a sheet of one problem, with one number per row and the operator below, evaluates to that operator applied to the numbers |

## Left out

- File reading (`read_lines`, `open`/`read`), the path arguments and the `__main__` drivers with their hard-coded expected answers are not part of this model. The solvers take the lines or the content string as a parameter.
- Python's `int()` accepts underscores between digits and non-ASCII digits. The model accepts only an optional `+`/`-` followed by ASCII digits, with optional surrounding whitespace. Likewise `\d` and `str.isdigit()` are ASCII `0`-`9` only.
- The `re` engine and `sorted` are specified by what they return: the `\d+` matches, the first `+`/`*`, and an ordered permutation by `(start, end)`. Their algorithms are not modelled.
- Different `ValueError` messages are collapsed into `None`. Only `Dial` and `Worksheet` keep distinct error values, because their sources raise distinguishable errors.
- The `IndexError` that a row shorter than the first raises in both day4 scans is modelled as `None`. So is the `IndexError` of a day5 range line with no `-` after its sign, where `rsplit` (day5/day5.py:34-35) returns a single piece. Neither is a separate error kind.
- `Dial.ParseRotationCases`: the error stores the first character as written, not upper-cased as in the message of line 50.
- The dial distance may be negative, because `int()` accepts a sign (e.g. `L-5`). The model follows the code here.
- A leading `-` on a day5 range line is removed before splitting, so `-3-5` is the range `(3, 5)`. The model follows the code, although the comment at day5/day5.py:25 says the range is negative.
- `Freshness.MergedTotal`: the union-size result is stated only when every range has `start <= end`. For reversed ranges the source's sum of `end - start + 1` is not a set size.
- `Freshness.Day5Part2`: the same restriction applies.
- `RepeatedIds`: negative numbers, whose `str` carries a sign, are out of scope. Parsed ranges are naturals. A `-` sign fails the parse, because `split('-')` then gives three pieces, one of them empty. A `+` sign is accepted, as `int()` accepts it, so `+3-5` is the range from 3 to 5.
- `Worksheet.SingleProblemRoundTrip`: the round trip is proved for one problem with one number per row. Sheets with several problems rely on `Worksheet.GroupsSpec` and `Worksheet.SumGroups`.
- `Worksheet.OneRowReadingsAgree`: the two readings are related only for one operand row.

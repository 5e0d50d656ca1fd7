# Puzzle solvers, modelled and verified in Dafny

The repository is a set of independent puzzle solvers. Each one reads a small
text input, runs a short integer, string or array algorithm on it, and prints
one or two answers. This project models seven of those algorithms, with the
input already parsed, and proves what each one computes.

- **Dance of programs** (`dance.dfy`, `leapfrog.dfy`; 2017 day 16). Sixteen
  programs stand in a line, held in a mutable list. The moves are:
  - `spin` rotates the line right, in place, by cycle-leader ("leapfrog")
    writes;
  - `exchange` swaps two positions;
  - `partner` swaps two named programs.

  A dance performs a list of moves. Since repeated dances fall into a cycle,
  the model proves how a cycle collapses a huge repeat count.
- **Fresh ingredient ranges** (`intervals.dfy`, `sorting.dfy`; 2025 day 5).
  - `mergeRanges` sorts inclusive ranges by end and merges them backwards in
    place, marking an absorbed range with start -1.
  - `part2` counts the integers the ranges cover.
  - `part1` and `part1fast` count the numbers lying in some range: naively,
    and with two cursors over sorted inputs.
- **Invalid product IDs** (`repeated_ids.dfy`; 2025 day 2). An ID is invalid
  when its decimal string is one block written twice (part one), or two or
  more times (part two). `chunked` cuts a string into pieces. Each part sums
  the invalid IDs of some inclusive ranges.
- **Battery banks** (`joltage.dfy`; 2025 day 3). A bank is a row of digits.
  - `indexOfMax` finds the first maximum.
  - Part one picks the best two-digit number.
  - The recursive `maxJoltage` greedily picks the best n-digit subsequence.
- **Safe dial** (`dial.dfy`; 2025 day 1). A dial showing 0..99 starts at 50
  and turns left or right. Part one counts the rotations that stop at 0;
  part two counts the clicks that reach 0.
- **Paper rolls on a grid** (`paper_grid.dfy`; 2025 day 4).
  - `numAdj` counts a cell's occupied neighbours.
  - Part one counts the rolls with at most three neighbours.
  - Part two removes all such rolls at once, pass after pass, until a pass
    finds none accessible; rolls may remain.
- **Cephalopod worksheet** (`worksheet.dfy`; 2025 day 6).
  - `makeAcc` makes a stateful sum or product closure, modelled as a class.
  - Part one folds each column of numbers under its operator.
  - Part two pads the rows, then reads numbers top-down from single
    character columns, scanning column by column.

`arith.dfy` holds small arithmetic lemmas shared by the modules.

Every imperative function of the source is a method with loop invariants,
proved against a specification function. Every such function has its meaning
proved in lemmas: a rotation, a cover of integers, a maximum, a count of
clicks.

## Model

| member | source | states |
|---|---|---|
| Dance.Rotate | 2017-day16/2017-day16.kts:26-47 | Spin keeps the line's length and its multiset of programs; an amount outside 1 .. n - 1 leaves the line as it is (the early return) |
| Dance.Swap | 2017-day16/2017-day16.kts:67-69 | Exchange keeps the line's length and its multiset of programs |
| Dance.IndexOf | 2017-day16/2017-day16.kts:74-75 | indexOf gives -1 exactly when the name is absent; otherwise it gives the first position holding the name |
| Dance.Trade | 2017-day16/2017-day16.kts:71-77 | Partner keeps the line's length and its multiset of programs |
| Dance.Step | 2017-day16/2017-day16.kts:80-88 | Each move, including one with an unknown letter, keeps the line a permutation of itself |
| Dance.Perform | 2017-day16/2017-day16.kts:79-89 | A whole dance keeps the line a permutation of itself |
| Dance.Iterate | 2017-day16/2017-day16.kts:94-96 | Any number of dances keeps the line a permutation of itself |
| Dance.PerformableOnContents | 2017-day16/2017-day16.kts:67-77 | Whether a dance can run without an index failure depends only on which programs the line holds |
| Dance.RotateMoves | 2017-day16/2017-day16.kts:26-36 | For 0 < x < n, spin moves the program at index i to index (i + x) mod n |
| Dance.RotateFrom | 2017-day16/2017-day16.kts:26-36 | After spin, index p holds what index (p - x) mod n held before |
| Dance.RotateInverse | 2017-day16/2017-day16.kts:26-36 | Spinning by x and then by n - x gives back the original line |
| Dance.SwapEffect | 2017-day16/2017-day16.kts:67-69 | Exchange puts each position's old program in the other position and changes no other position |
| Dance.SwapSymmetricInvolution | 2017-day16/2017-day16.kts:67-69 | exchange(i, j) equals exchange(j, i), and doing it twice restores the line |
| Dance.TradeRelabels | 2017-day16/2017-day16.kts:71-77 | On a line of distinct programs, partner(a, b) turns a into b and b into a and leaves every other position alone |
| Dance.PerformKeepsDistinct | 2017-day16/2017-day16.kts:19-23 | A dance keeps the programs distinct |
| Dance.DistinctCount | 2017-day16/2017-day16.kts:19-23 | On a line of distinct programs, every program occurs at most once |
| Dance.IterateAdd | 2017-day16/2017-day16.kts:94-96 | a + b dances are a dances followed by b dances |
| Dance.CycleRepeats | 2017-day16/2017-day16.kts:10-11 | If the line after j dances equals the line after i > j dances, then for every R >= j, R dances give the line of j + (R - j) mod (i - j) dances |
| Dance.IterateShift | 2017-day16/2017-day16.kts:99-113 | Once a line repeats after i - j dances, going back i - j dances from any later count gives the same line |
| Dance.DoSpin | 2017-day16/2017-day16.kts:26-65 | The leapfrog loop leaves the array rotated right by x for every x, including when x and n share a factor; it is a no-op when x <= 0 or x >= n |
| Dance.LeapfrogRotates | 2017-day16/2017-day16.kts:52-64 | If every write q put the value from PosBefore(q) into Pos(q), the array is the right rotation of the old one |
| Dance.DoExchange | 2017-day16/2017-day16.kts:67-69 | The array after exchange is Swap of the old one |
| Dance.DoPartner | 2017-day16/2017-day16.kts:71-77 | The array after partner is Trade of the old one |
| Dance.PerformDance | 2017-day16/2017-day16.kts:79-89 | The array after performDance is Perform of the old one |
| Leapfrog.Period | 2017-day16/2017-day16.kts:42-46 | The hop count after which a walk returns to its slot: it lies in 1 .. n, and no smaller positive count returns |
| Leapfrog.PeriodDividesLength | 2017-day16/2017-day16.kts:42-46 | For 0 < x < n, a walk has at least 2 slots, and n splits into Cycles walks of Period slots each, with 1 <= Cycles < n |
| Leapfrog.WriteHopsRight | 2017-day16/2017-day16.kts:59-63 | Each write moves a value exactly x slots to the right, with wrap-around |
| Leapfrog.WalkStart | 2017-day16/2017-day16.kts:53-57 | The first write of walk c carries the value of slot c + 1 |
| Leapfrog.WalkContinues | 2017-day16/2017-day16.kts:58-63 | Inside a walk, each write carries the value the previous write evicted |
| Leapfrog.WalkCloses | 2017-day16/2017-day16.kts:53 | The last write of a walk lands on the walk's start slot |
| Leapfrog.WalkClosesOnlyAtEnd | 2017-day16/2017-day16.kts:53-57 | A write lands on its walk's start slot if and only if it is the walk's last write |
| Leapfrog.OnlyLastCloses | 2017-day16/2017-day16.kts:53 | No write before the last one of a walk lands on the walk's start slot |
| Leapfrog.ClosingWrite | 2017-day16/2017-day16.kts:53-57 | Walk c has a last write, and that write lands on slot c + 1 |
| Leapfrog.PosInjective | 2017-day16/2017-day16.kts:52-64 | No two of the n writes hit the same slot |
| Leapfrog.PosDistinct | 2017-day16/2017-day16.kts:52-64 | Every other write misses the slot of write k |
| Leapfrog.WrittenSize | 2017-day16/2017-day16.kts:52 | The first k writes hit k distinct slots |
| Leapfrog.PosOnto | 2017-day16/2017-day16.kts:52-64 | Every slot is hit by some write, so the n writes cover each slot exactly once |
| Leapfrog.LeapRestarts | 2017-day16/2017-day16.kts:53-57 | The loop's test startIdx == i holds exactly when the next write opens a new walk; otherwise the next write carries the evicted value |
| Leapfrog.LeapNewWalk | 2017-day16/2017-day16.kts:53-57 | A new walk starts one slot after the last start, and that slot is overwritten only by the walk's own last write |
| Leapfrog.NextStart | 2017-day16/2017-day16.kts:54-55 | Moving i one slot on reaches the start of the next walk |
| Leapfrog.StartWrittenLast | 2017-day16/2017-day16.kts:53-57 | A walk's start slot is overwritten at or after the write that opens the walk |
| Sorting.Insert | 2025/day5/2025-day5.ts:66 | Inserting into a sorted list keeps it sorted and adds exactly the new element |
| Sorting.SortBy | 2025/day5/2025-day5.ts:66 | The sorted list is sorted by the key and is a permutation of the input |
| Sorting.SortInPlace | 2025/day5/2025-day5.ts:66 | Array.prototype.sort leaves the array sorted by the comparator's key and a permutation of its old contents |
| Intervals.Span | 2025/day5/2025-day5.ts:63 | The set of a range holds exactly the integers from start to end |
| Intervals.CoverAppend | 2025/day5/2025-day5.ts:88 | Two lists of ranges together cover the union of what each covers |
| Intervals.CoverMember | 2025/day5/2025-day5.ts:54-55 | An integer is covered exactly when some live range contains it |
| Intervals.CoverPermutation | 2025/day5/2025-day5.ts:66 | Reordering the ranges does not change what they cover |
| Intervals.CoverReplaceTwo | 2025/day5/2025-day5.ts:78-81 | Replacing two ranges by two that cover the same integers leaves the cover unchanged |
| Intervals.CoverSplit | 2025/day5/2025-day5.ts:75-76 | The cover is the cover of the ranges before k, range k, and the ranges after k |
| Intervals.AbsorbCovers | 2025/day5/2025-day5.ts:78-81 | Absorbing an overlapping A into B (B takes the smaller start, A is marked -1) covers exactly what A and B covered |
| Intervals.SpanSize | 2025/day5/2025-day5.ts:93 | A range covers end - start + 1 integers |
| Intervals.SeparatedCount | 2025/day5/2025-day5.ts:91-94 | For disjoint ranges sorted in order, the sum of end - start + 1 is the number of integers covered |
| Intervals.Survivors | 2025/day5/2025-day5.ts:88 | The filter keeps exactly the ranges not marked -1 |
| Intervals.SurvivorsCover | 2025/day5/2025-day5.ts:88 | Dropping the marked ranges does not change the cover |
| Intervals.SurvivorsSeparated | 2025/day5/2025-day5.ts:88 | When the live ranges are ordered with gaps between them, the surviving list is sorted and pairwise disjoint |
| Intervals.MergeRanges | 2025/day5/2025-day5.ts:65-89 | The caller's array ends up sorted by end, its ends a permutation of the old ends, and the result is exactly its ranges not marked -1; the merged ranges cover exactly the input's integers, each is well formed, they are sorted with gaps between them, and each input range lies inside one of them |
| Intervals.EndsPermutation | 2025/day5/2025-day5.ts:66 | Reordering the ranges reorders their ends, as a multiset |
| Intervals.MergeStart | 2025/day5/2025-day5.ts:66 | After the sort by end, the merge invariant holds for i = 1 and the cover is the input's |
| Intervals.SurvivorsFacts | 2025/day5/2025-day5.ts:88 | At the end of the outer loop, the survivors keep the cover, are well formed and separated, and contain every input range |
| Intervals.AbsorbKeeps | 2025/day5/2025-day5.ts:78-81 | Absorbing A = ranges[j] into B = ranges[i] keeps the merge invariant and the cover, and leaves j .. i - 1 all marked |
| Intervals.DeadWellFormed | 2025/day5/2025-day5.ts:79-81 | After an absorption, every live range is still well formed, and B and later ranges stay live |
| Intervals.SameEndsSorted | 2025/day5/2025-day5.ts:79-81 | Changing only starts keeps the array sorted by end |
| Intervals.DeadSeparated | 2025/day5/2025-day5.ts:79-81 | Marking a range deleted and widening B keeps the live ranges before B separated |
| Intervals.Reown | 2025/day5/2025-day5.ts:79-81 | After an absorption, every input range still lies inside some live range |
| Intervals.MergeBackwards | 2025/day5/2025-day5.ts:72-85 | The inner loop keeps the cover and extends the merge invariant to i + 1: the live ranges up to i are separated and sorted |
| Intervals.Absorb | 2025/day5/2025-day5.ts:79-81 | The two writes set B's start to the smaller start and A's start to -1 |
| Intervals.SeparatedBefore | 2025/day5/2025-day5.ts:82-83 | Breaking at the first live A that ends before B starts is sound: every earlier live range ends before B starts too |
| Intervals.PassDone | 2025/day5/2025-day5.ts:71-86 | Once every live range before i ends before range i starts, the invariant holds for i + 1 |
| Intervals.Part2 | 2025/day5/2025-day5.ts:91-94 | part2 returns the number of distinct integers the input ranges cover, and leaves the caller's array sorted by end with its ends a permutation of the old ends |
| Intervals.CountCovered | 2025/day5/2025-day5.ts:121-133 | The count of numbers lying in some range is at most the count of numbers |
| Intervals.CountAppend | 2025/day5/2025-day5.ts:123 | The count over two lists of numbers is the sum of the counts |
| Intervals.CountPermutation | 2025/day5/2025-day5.ts:137 | Sorting the numbers does not change the count |
| Intervals.CountRemove | 2025/day5/2025-day5.ts:137 | Removing one number takes its own contribution out of the count |
| Intervals.InAnyPermutation | 2025/day5/2025-day5.ts:136 | Whether a number lies in some range does not depend on the order of the ranges |
| Intervals.CountRangesPermutation | 2025/day5/2025-day5.ts:136 | Sorting the ranges does not change the count |
| Intervals.CountUncoveredTail | 2025/day5/2025-day5.ts:142-151 | Numbers after j that lie in no range add nothing to the count |
| Intervals.Part1 | 2025/day5/2025-day5.ts:121-133 | part1 counts the numbers lying in at least one range, each at most once |
| Intervals.BelowRange | 2025/day5/2025-day5.ts:146 | With ranges sorted by start, a number below range i's start and above the ends of the earlier ranges lies in no range |
| Intervals.NextNumber | 2025/day5/2025-day5.ts:137 | In the sorted numbers, the next number is at least the current one |
| Intervals.RestUncovered | 2025/day5/2025-day5.ts:142 | When either cursor runs out, no remaining number lies in any range |
| Intervals.Part1Fast | 2025/day5/2025-day5.ts:135-152 | part1fast returns the same count as part1 for any ranges and numbers, and leaves both arrays sorted permutations of themselves |
| RepeatedIds.DigitChar | 2025/day2/2025-day2.ts:42 | Each digit's character is a decimal digit that stands for that digit |
| RepeatedIds.DecimalString | 2025/day2/2025-day2.ts:42 | String(x) is a non-empty string of digits with no leading zero; it has one digit exactly when x < 10 |
| RepeatedIds.DecimalRoundTrip | 2025/day2/2025-day2.ts:42 | Reading String(x) back as a number gives x |
| RepeatedIds.ChunksShape | 2025/day2/2025-day2.ts:56-62 | The chunks join back to s, there are ceil(len(s) / n) of them, and each has length n except that the last may be shorter |
| RepeatedIds.ChunksFlatten | 2025/day2/2025-day2.ts:56-62 | The chunks of s join back to s |
| RepeatedIds.ChunksCount | 2025/day2/2025-day2.ts:58 | There are ceil(len(s) / n) chunks |
| RepeatedIds.ChunksLengths | 2025/day2/2025-day2.ts:59 | Every chunk has 1 to n characters, and every chunk but the last has exactly n |
| RepeatedIds.Chunked | 2025/day2/2025-day2.ts:56-62 | The loop of chunked returns the pieces of s of n characters |
| RepeatedIds.ChunksStep | 2025/day2/2025-day2.ts:59 | Each loop step pushes the next slice, clamped to the end of s |
| RepeatedIds.RepeatLength | 2025/day2/2025-day2.ts:18 | A block written m times has m times its length |
| RepeatedIds.ChunksAllEqual | 2025/day2/2025-day2.ts:80-81 | When n divides the length, every chunk equals b exactly when s is b repeated |
| RepeatedIds.AdjacentEqualIffAllFirst | 2025/day2/2025-day2.ts:71-81 | The commented check that adjacent chunks are equal agrees with the check that every chunk equals the first |
| RepeatedIds.P2IsInvalid | 2025/day2/2025-day2.ts:65-89 | p2isInvalid(x) holds if and only if String(x) is a block whose length divides it, written two or more times; it is false for single digits |
| RepeatedIds.DoubledIsRepeated | 2025/day2/2025-day2.ts:43-46 | An ID invalid in part one is invalid in part two, with the block of half the length |
| RepeatedIds.Select | 2025/day2/2025-day2.ts:41-48 | The IDs pushed for a range are exactly those from start to end passing the test, in increasing order; a range with start > end pushes none |
| RepeatedIds.SumAppend | 2025/day2/2025-day2.ts:52 | The reduce over two lists is the sum of their reduces |
| RepeatedIds.PushDoubled | 2025/day2/2025-day2.ts:41-49 | Part one's loop over one range appends exactly the range's IDs with two equal halves |
| RepeatedIds.Part1 | 2025/day2/2025-day2.ts:35-53 | part1 sums exactly the IDs in the ranges whose decimal string has even length and equal halves |
| RepeatedIds.PushRepeated | 2025/day2/2025-day2.ts:95-97 | Part two's loop over one range appends exactly the range's IDs that p2isInvalid accepts |
| RepeatedIds.Part2 | 2025/day2/2025-day2.ts:91-101 | part2 sums exactly the IDs in the ranges that are a block repeated two or more times |
| RepeatedIds.SelectStep | 2025/day2/2025-day2.ts:41-48 | One loop step adds i to the pushed IDs exactly when i passes the test |
| RepeatedIds.SelectSumStep | 2025/day2/2025-day2.ts:52 | The sum over start .. hi is the sum over start .. hi - 1, plus hi when it passes |
| RepeatedIds.SelectSumMono | 2025/day2/2025-day2.ts:43-46 | A weaker test selects no smaller sum over a range |
| RepeatedIds.InvalidIdsSumMono | 2025/day2/2025-day2.ts:91-101 | A weaker test selects no smaller sum over all ranges |
| RepeatedIds.Part1AtMostPart2 | 2025/day2/2025-day2.ts:35-53 | Every ID part one counts, part two counts too, so part one's sum is at most part two's |
| RepeatedIds.InvalidIdsSubset | 2025/day2/2025-day2.ts:91-101 | A weaker test selects every ID the stronger one selects |
| Joltage.MaxIndexOfPrefix | 2025/day3/2025-day3.ts:42-45 | The reduce of indexOfMax ends at an index of the maximum that is strictly greater than everything before it |
| Joltage.IndexOfMax | 2025/day3/2025-day3.ts:38-46 | indexOfMax gives -1 exactly on an empty array; otherwise it gives the first index holding the maximum |
| Joltage.Max | 2025/day3/2025-day3.ts:54 | Math.max of a non-empty array is an element that no element exceeds |
| Joltage.ValueBounds | 2025/day3/2025-day3.ts:63 | k digits read a number in [0, 10^k) |
| Joltage.LeadingDigitDecides | 2025/day3/2025-day3.ts:19 | Of two digit strings of the same length, the one with the smaller leading digit reads the smaller number |
| Joltage.SubseqLength | 2025/day3/2025-day3.ts:6 | A choice of batteries has no more digits than the bank |
| Joltage.SubseqSameLength | 2025/day3/2025-day3.ts:62-64 | A choice of all the batteries is the bank itself |
| Joltage.SubseqHead | 2025/day3/2025-day3.ts:26-27 | A choice starts with some battery j and continues with a choice from after j |
| Joltage.SubseqKeepsBank | 2025/day3/2025-day3.ts:5 | Batteries chosen from a bank of digits 1..9 are digits 1..9 |
| Joltage.PairJoltageIsBest | 2025/day3/2025-day3.ts:48-58 | Part one's per-bank value 10 * first + second is read by some i < j, and no i < j reads more |
| Joltage.SumPairsStep | 2025/day3/2025-day3.ts:55 | Adding one more bank adds its best pair to the sum |
| Joltage.Part1 | 2025/day3/2025-day3.ts:48-58 | part1 returns the sum over the banks of each bank's best pair |
| Joltage.BankPair | 2025/day3/2025-day3.ts:51-55 | The forEach body computes the first maximum of all but the last battery, times 10, plus the largest battery after it |
| Joltage.JoltageDigits | 2025/day3/2025-day3.ts:61-70 | maxJoltage's digits are n batteries of the bank, chosen in order |
| Joltage.MaxJoltage | 2025/day3/2025-day3.ts:61-70 | maxJoltage(bank, n) is what some n batteries, chosen in order, read; on a bank of digits 1..9 it is below 10^n |
| Joltage.MaxJoltageIsBest | 2025/day3/2025-day3.ts:61-70 | No choice of n batteries in order reads a larger number than maxJoltage(bank, n) |
| Joltage.MaxJoltageOneIsBest | 2025/day3/2025-day3.ts:65-67 | With n = 1, no single battery beats Math.max |
| Joltage.MaxJoltageStepIsBest | 2025/day3/2025-day3.ts:68-69 | With 1 < n < length, the greedy first maximum of the window followed by the best n - 1 of the rest beats every choice |
| Joltage.GreedyDigits | 2025/day3/2025-day3.ts:68-69 | maxJoltage's digits are the first maximum of bank[0 .. length - n] followed by maxJoltage of the rest |
| Joltage.FirstMaximumIsEarliest | 2025/day3/2025-day3.ts:68 | A battery in the window at least as large as the chosen one is at or after it and equal to it |
| Joltage.SuffixOfRest | 2025/day3/2025-day3.ts:69 | A choice from after a later battery is also a choice from after the chosen one |
| Joltage.SameLeadingDigit | 2025/day3/2025-day3.ts:69 | With equal leading digits, the larger tail reads the larger number |
| Joltage.MaxJoltageEdgeCases | 2025/day3/2025-day3.ts:62-67 | With as many batteries as n, maxJoltage takes the whole bank; with n = 1 it is Math.max of the bank |
| Joltage.PairIsMaxJoltageTwo | 2025/day3/2025-day3.ts:51-55 | Part one's pair is maxJoltage(bank, 2) |
| Joltage.Part2 | 2025/day3/2025-day3.ts:77 | The reduce sums maxJoltage(bank, 12) over the banks: on banks of digits 1..9, between 0 and 999999999999 per bank |
| Joltage.Part2Attained | 2025/day3/2025-day3.ts:77 | Some choice of twelve batteries per bank, each in order, sums to part2 |
| Joltage.Part2IsBest | 2025/day3/2025-day3.ts:77 | No choice of twelve batteries per bank sums to more than part2, which sums maxJoltage(bank, 12) |
| Dial.JsRem100 | 2025/day1/2025-day1.ts:45 | JavaScript's % 100 truncates: the result lies strictly between -100 and 100, has the sign of the operand, and differs from it by a multiple of 100 |
| Dial.Turn | 2025/day1/2025-day1.ts:44-46 | After every rotation the dial lies in 0 .. 99, at (val + c * amt) mod 100 |
| Dial.SameRemainderIfDiffers | 2025/day1/2025-day1.ts:46 | Adding 100 to a negative remainder gives the non-negative remainder |
| Dial.CommentExamples | 2025/day1/2025-day1.ts:50-56 | The worked examples in the comments hold: 50 + 1 is 51, 50 + 55 is 5, 50 - 50 is 0, 50 - 51 is 99, 50 - 52 is 98, 50 - 240 is 10 |
| Dial.Positions | 2025/day1/2025-day1.ts:43-57 | There is one dial position per rotation, each in 0 .. 99 |
| Dial.PositionsStep | 2025/day1/2025-day1.ts:45-46 | Each rotation turns the dial from where the previous one stopped, or from 50 |
| Dial.PositionsSnoc | 2025/day1/2025-day1.ts:48 | The count of zeros grows by one exactly when the last rotation ends at 0 |
| Dial.PositionsLast | 2025/day1/2025-day1.ts:43-57 | The last position is where the dial ends |
| Dial.Part1Step | 2025/day1/2025-day1.ts:43-57 | One more rotation turns the dial once more and adds one to the count exactly when it stops at 0 |
| Dial.Part1 | 2025/day1/2025-day1.ts:40-60 | part1 counts the rotations that leave the dial at 0, starting from 50 |
| Dial.ClickZerosClosedForm | 2025/day1/2025-day1.ts:16-21 | Clicks right reach 0 once per multiple of 100 in (val, val + amt]; clicks left once per multiple of 100 in [val - amt, val) |
| Dial.ZeroCountIsClicks | 2025/day1/2025-day1.ts:66-80 | The corrected per-rotation count equals the number of single clicks that leave the dial at 0 |
| Dial.ZeroCountRight | 2025/day1/2025-day1.ts:74-80 | To the right, the corrected count is the number of multiples of 100 passed |
| Dial.ZeroCountLeft | 2025/day1/2025-day1.ts:74-80 | To the left, the corrected count is the number of multiples of 100 passed, with a start at 0 not counted |
| Dial.ZeroCountAsWritten | 2025/day1/2025-day1.ts:66-80 | One rotation as written counts its amt div 100 whole turns plus at most one |
| Dial.AsWrittenOvercounts | 2025/day1/2025-day1.ts:74-80 | The count as written equals the clicks reaching 0, plus one exactly when the rotation starts at 0 with an amount that is a multiple of 100 |
| Dial.SameLanding | 2025/day1/2025-day1.ts:66-72 | Reducing amt mod 100 first does not change where the dial lands |
| Dial.TotalAsWritten | 2025/day1/2025-day1.ts:62-94 | From a start in 0..99, part2 as written counts at least the clicks that reach 0, and at most one more per rotation |
| Dial.AsWrittenCounterexample | 2025/day1/2025-day1.ts:74-80 | From 50, L50 then R100 reaches 0 on two clicks, but part2 as written answers 3 |
| Dial.CountRotation | 2025/day1/2025-day1.ts:69-80 | The loop body lands where the full rotation would and adds that rotation's clicks through 0 |
| Dial.Part2Step | 2025/day1/2025-day1.ts:65-91 | One more rotation turns the dial once more and adds its clicks through 0 |
| Dial.Part2 | 2025/day1/2025-day1.ts:62-94 | part2 (corrected) returns the clicks that leave the dial at 0, and overwrites each amt with amt mod 100 |
| Dial.ReducedSamePositions | 2025/day1/2025-day1.ts:66-72 | part2 visits the same dial positions as part1 |
| Dial.Part2AtLeastPart1 | 2025/day1/2025-day1.ts:62-94 | When every amount is at least 1, the clicks through 0 are at least part1's count |
| Dial.LandingIsAClick | 2025/day1/2025-day1.ts:74-76 | A rotation of at least one click that stops at 0 has a click that reaches 0 |
| Dial.AsWrittenAtLeastPart1 | 2025/day1/2025-day1.ts:62-94 | part2 as written is at least part1 |
| PaperGrid.CellIsRoll | 2025/day4/2025-day4.ts:35-40 | A cell holds a roll exactly when its position is among the grid's rolls |
| PaperGrid.Neighbour | 2025/day4/2025-day4.ts:34-43 | Each offset contributes at most one, and the cell itself contributes nothing |
| PaperGrid.RowPart | 2025/day4/2025-day4.ts:33-44 | One row of the block contributes at most three, and the middle row at most two |
| PaperGrid.Rows | 2025/day4/2025-day4.ts:32-45 | The rows scanned so far contribute at most three per row, less one once the middle row is done |
| PaperGrid.Adj | 2025/day4/2025-day4.ts:30-47 | A cell has between 0 and 8 neighbours holding rolls |
| PaperGrid.AccessibleSet | 2025/day4/2025-day4.ts:53 | Every accessible position holds a roll |
| PaperGrid.AccessibleIn | 2025/day4/2025-day4.ts:69-71 | Among a set of rolls, the accessible ones are exactly the rolls with at most MAX_ADJ neighbours in the set |
| PaperGrid.AccessibleOnGrid | 2025/day4/2025-day4.ts:53 | On a grid, the accessible rolls are those accessible among the grid's rolls |
| PaperGrid.Peel | 2025/day4/2025-day4.ts:62-88 | Removing all accessible rolls pass after pass until a pass finds none leaves a subset of the rolls in which none is accessible and which holds none of the rolls accessible at the start |
| PaperGrid.PeelStep | 2025/day4/2025-day4.ts:77-87 | A pass that finds nothing ends the peeling; otherwise the peeling goes on from what the pass leaves, which is strictly fewer rolls |
| PaperGrid.PeelIdempotent | 2025/day4/2025-day4.ts:62-88 | Peeling what part2 leaves removes nothing more |
| PaperGrid.NumAdj | 2025/day4/2025-day4.ts:30-47 | numAdj counts the neighbours holding rolls, on the grid and not the cell itself, so it is at most 8; it never reads off the grid |
| PaperGrid.NeighbourOnGrid | 2025/day4/2025-day4.ts:34-43 | A neighbour counts exactly when it is on the grid, is not the cell itself, and holds a roll |
| PaperGrid.ScannedStep | 2025/day4/2025-day4.ts:51-57 | One cell further in row-major order adds that cell exactly when it is accessible |
| PaperGrid.ScannedRow | 2025/day4/2025-day4.ts:51-52 | The end of a row is the start of the next |
| PaperGrid.ScannedAll | 2025/day4/2025-day4.ts:51-57 | Scanning the whole grid finds every accessible roll |
| PaperGrid.SubsetSize | 2025/day4/2025-day4.ts:81-84 | Removing a subset of the rolls removes exactly its size |
| PaperGrid.Part1 | 2025/day4/2025-day4.ts:49-59 | part1 counts the rolls with at most MAX_ADJ = 3 neighbours, so at most the number of rolls |
| PaperGrid.ScanPass | 2025/day4/2025-day4.ts:67-75 | A pass judges accessibility on the grid as it stood at the start of the pass, and counts exactly the accessible rolls |
| PaperGrid.RemoveAll | 2025/day4/2025-day4.ts:81-84 | The removals clear exactly the collected positions |
| PaperGrid.Part2 | 2025/day4/2025-day4.ts:62-88 | The rolls left are exactly Peel of the rolls at the start, and part2 returns how many were removed; it stops when no roll is accessible; the first pass removes every roll part1 counts, so the result is at least part1 |
| PaperGrid.InBlock | 2025/day4/2025-day4.ts:62-88 | A position lies in the full 4 x 4 block exactly when both coordinates are in 0..3 |
| PaperGrid.RowInBlock | 2025/day4/2025-day4.ts:33-44 | In the full block, one row of a cell's neighbourhood holds as many rolls as its in-block columns, less the cell itself |
| PaperGrid.AdjInBlock | 2025/day4/2025-day4.ts:30-47 | In the full block, a cell has as many neighbours as in-block cells around it, less itself: 3 at a corner, 5 on an edge, 8 inside |
| PaperGrid.CornersAccessible | 2025/day4/2025-day4.ts:67-75 | On the full 4 x 4 block, the first pass finds exactly the four corners |
| PaperGrid.InPeeled | 2025/day4/2025-day4.ts:81-84 | After the corners go, a position holds a roll exactly when it is a non-corner block position |
| PaperGrid.PeeledAdj | 2025/day4/2025-day4.ts:30-47 | After the corners go, every remaining roll has at least four neighbours |
| PaperGrid.CornersSize | 2025/day4/2025-day4.ts:67-75 | The block has four corners |
| PaperGrid.PeeledStable | 2025/day4/2025-day4.ts:77-79 | After the corners go, the second pass finds nothing |
| PaperGrid.FullBlockPeel | 2025/day4/2025-day4.ts:62-88 | On a full 4 x 4 block, part2 removes the four corners, answers 4, and leaves the other rolls: it stops at the fixed point and does not clear the grid |
| Worksheet.Accumulator.constructor | 2025/day6/2025-day6.ts:31-34 | makeAcc("+") starts at 0 and adds; any other string starts at 1 and multiplies |
| Worksheet.Accumulator.Apply | 2025/day6/2025-day6.ts:35-38 | Each call returns the running total, which is the sum or product of every argument so far |
| Worksheet.Column | 2025/day6/2025-day6.ts:47-49 | Column i holds row j's i-th number at position j |
| Worksheet.SolveColumn | 2025/day6/2025-day6.ts:44-50 | One column comes to its numbers folded under the bottom-row operator, or -1 with no number rows |
| Worksheet.Part1 | 2025/day6/2025-day6.ts:41-53 | part1 adds up every column's fold under its operator |
| Worksheet.NoNumberRows | 2025/day6/2025-day6.ts:45-50 | Without number rows every column adds -1 |
| Worksheet.Spaces | 2025/day6/2025-day6.ts:59 | " ".repeat(n) is n spaces |
| Worksheet.MaxLen | 2025/day6/2025-day6.ts:57 | The width is the length of some row and no row is longer |
| Worksheet.Pad | 2025/day6/2025-day6.ts:59 | A padded row has the full width and starts with the original row followed only by spaces |
| Worksheet.Padded | 2025/day6/2025-day6.ts:58-60 | Every row is padded, and there are as many rows as before |
| Worksheet.ColumnString | 2025/day6/2025-day6.ts:78-81 | A column's string is read top-down from every row but the operator row |
| Worksheet.Cols | 2025/day6/2025-day6.ts:70-84 | The columns are read left to right |
| Worksheet.Problems | 2025/day6/2025-day6.ts:66-84 | The walk always has an open problem: a "+" one before the first operator column |
| Worksheet.Carried | 2025/day6/2025-day6.ts:73-86 | Each problem hands on one value |
| Worksheet.BlankColumnKeepsProb | 2025/day6/2025-day6.ts:82 | A column whose number rows are all spaces does not change prob |
| Worksheet.Answers | 2025/day6/2025-day6.ts:83 | Each problem comes to its own fold |
| Worksheet.TotalIsSumOfAnswers | 2025/day6/2025-day6.ts:73-87 | When every problem after the first has a number, part2 is the sum of the problems' answers |
| Worksheet.CarriedIsAnswers | 2025/day6/2025-day6.ts:73-87 | When every problem after the first has a number, each hands on its own answer |
| Worksheet.OpenKeeps | 2025/day6/2025-day6.ts:73-76 | At an operator column, the finished problem's value goes into res before the accumulator is reset |
| Worksheet.FeedKeeps | 2025/day6/2025-day6.ts:83 | A number fed to the accumulator makes prob the fold of the open problem's numbers |
| Worksheet.NextColumn | 2025/day6/2025-day6.ts:70-84 | One more column changes the problems by that column's effect |
| Worksheet.ReadColumn | 2025/day6/2025-day6.ts:78-81 | The inner loop builds the column's string top-down |
| Worksheet.PadRows | 2025/day6/2025-day6.ts:58-60 | The padding loop replaces every row by its padded form |
| Worksheet.WalkColumn | 2025/day6/2025-day6.ts:71-83 | One column step keeps the walk's invariant: res holds the closed problems, prob the open one |
| Worksheet.OpenColumn | 2025/day6/2025-day6.ts:73-76 | An operator column adds prob to res and opens a fresh accumulator |
| Worksheet.FeedColumn | 2025/day6/2025-day6.ts:78-83 | A blank column changes nothing; a number is fed to the open problem |
| Worksheet.WalkColumns | 2025/day6/2025-day6.ts:66-87 | The column scan returns the total of the problems, the last one added after the loop |
| Worksheet.Part2 | 2025/day6/2025-day6.ts:55-88 | part2 pads every row to the maximum width and returns the total of the problems read top-down, column by column |

## Left out

- Input and output: reading and splitting the input files, `parseInt`, `Number` and `toInt` on tokens, `console.log`/`println`, and the `PT1_SOLUTION` comparison. Every operation takes its input already parsed.
- Numbers: JavaScript's doubles and Kotlin's `Int` are modelled as unbounded integers. No input of the puzzles comes near a precision or overflow limit.
- Day 16 cycle search: the commented-out search for a repeated arrangement (a map from joined strings to iterations) is not modelled. Only the periodicity it relies on is proved, in `Dance.CycleRepeats`.
- Day 16 line: the global `arr` is an `array<Symbol>` passed to each method. A `Symbol` is a string name. A move letter other than s, x or p is the move `Other`, which does nothing.
- Dance.DoExchange, Dance.DoPartner, Dance.PerformDance: an index out of range, or an absent name, throws in the source. The model requires indices in range and names present, through `Performable`.
- Day 3 `Array.prototype.indexOfMax`: the global declaration is left out. `indexOfMax` is a plain function, and its unused `start` and `end` parameters are dropped.
- Sorting.SortInPlace: the tie order of `Array.prototype.sort` is not modelled. The result is some sorted permutation, computed by insertion sort.
- Day 5 ranges: they are value records in an array. The sharing of JS objects between `ranges` and the caller is not modelled.
- Intervals.MergeRanges, Intervals.Part2: these require every range to have 0 <= start <= end, as the input's ranges do. Without it, -1 could not serve as the deletion mark.
- Day 5 `part1`, first version: the buggy two-cursor `part1` kept in comments is not modelled.
- Day 4 grid: the grid is a rectangular `array2<bool>`, indexed [row, column]. The `Set` of "i,j" strings is a set of index pairs.
- Day 4 removal order: the removal loop clears the positions in an unspecified order, which does not change the outcome.
- Joltage.Part1: requires every bank to have at least two batteries. With fewer, `slice(0, -1)` is empty and the source computes NaN.
- Joltage.Part2, Joltage.MaxJoltageIsBest: require banks of digits 1..9, with at least n (twelve) batteries each. With a 0 digit, the string round trip of `Number(...)` would drop leading zeros of a tail; a shorter bank makes the recursion misbehave.
- Joltage.MaxJoltage: the string concatenation and `Number(...)` of line 69 is modelled as the digit sequence and the number it spells (`Value`).
- RepeatedIds.P2IsInvalid: the bound `n <= s.length / 2` compares an integer with a float. For whole n this is the same as n <= floor(length / 2), which the model uses.
- Day 6 `Trim`: it removes spaces only, the only whitespace the padded rows contain.
- Day 6 `Number`: `Number(num)` of a trimmed column is the decimal value of its digits. Part two requires the number columns to be digits with spaces around them (`Readable`), as the input's are; part one takes the numbers already parsed. An empty `Number("")` is never reached, since the source skips all-space columns.
- Day 6 `makeAcc`: the closure is the class `Accumulator`. The ghost field `history` records the arguments it was given.
- Day 6 `part1` input: it takes the number rows and the operator row already split into words.
- Worksheet.Part2: the body of `part2` is split into `PadRows`, `WalkColumns`, `WalkColumn`, `OpenColumn`, `FeedColumn` and `ReadColumn`. Together they follow the source's statements in order.
- Dial.Part2: computes the corrected count (see Findings); the count as written is the function `Dial.ZeroCountAsWritten`, summed by `Dial.TotalAsWritten`.

## Findings

| source | as written | input that shows it | evidently intended | confidence | as-written member | corrected member |
|---|---|---|---|---|---|---|
| 2025/day1/2025-day1.ts:74-80 | a rotation that ends on 0 adds 1 even when it starts at 0, on top of the amt div 100 whole turns | from 50, rotations L50 then R100: the source answers 3, but only two clicks reach 0 (the end of L50 and the 100th click of R100) | count each click that brings the dial to 0 once: the landing on 0 is credited only from a non-zero start, as the comment at lines 19-21 intends for the wrap | not executed | Dial.ZeroCountAsWritten, Dial.AsWrittenOvercounts, Dial.AsWrittenCounterexample | Dial.ZeroCount, Dial.ZeroCountIsClicks, Dial.Part2 |

# Job selection and goodie distribution

A Dafny model of the two selection routines of this repository. Properties of the model are proved.

- **Job selection** (`problem1/index.js`, module `JobScheduling` in `job_scheduling.dfy`):
  - `findLastNonConflict` scans backwards for the last job that ends no later than a given job starts.
  - `determineJobsTaken` walks backwards from the last job. It takes a job when the job has no compatible predecessor, or when the job's profit plus that predecessor's profit beats the profit of the job just before it. After taking a job it jumps to the predecessor; otherwise it steps back one. At the end it reverses the jobs it pushed.
  - `jobsLeftForOthers` returns the number and the total profit of the jobs the walk leaves.
- **Goodie distribution** (`problem2/index.js`, module `GoodiesDistribution` in `goodies_distribution.dfy`):
  - `findGoodiesDistribution` sorts the caller's array of goodies in place, by price, with a stable sort.
  - It then slides a window of `k` goodies over the sorted array.
  - It keeps the first window whose last and first price differ the least, together with that difference. When there is no window the difference is `Infinity`.

How the source's entities are represented:

- A job is a datatype, and the list of jobs is a sequence, because it is never changed.
- The `chosenJobs` array that the walk pushes onto is a local sequence, reversed at the end. A ghost list of the pushed indices ties it to the walk's specification `TakenFrom`.
- The goodies are an `array`. They are sorted in place by an insertion sort, which is proved to produce exactly the functional stable sort `SortByPrice`.
- The window scan is a loop. It is proved to end in the state `BestDistribution` describes.
- `Infinity` is the `Infinity` case of the datatype `MinDiff`.
- The `{ chosenGoodies, minDiff }` object the function returns is the datatype `Distribution`.

Where the source's own documentation and its code disagree, the model follows the code:

- The comment on `determineJobsTaken` (`problem1/index.js:35` and `:37`) promises jobs "chosen to maximize profit" "without overlapping". The code is a greedy walk whose comparison uses single-job profits, so it keeps neither promise. `WalkMayTakeOverlappingJobs` exhibits four jobs on which the walk takes two overlapping jobs. Optimality and non-overlap are therefore not claimed.
- When there are more employees than goodies (`k > n`), `findGoodiesDistribution` raises no error. The loop body never runs, and the result is an empty selection with `Infinity`. The model does the same (`ExampleTooFewGoodies`).

## Model

| member | source | states |
|---|---|---|
| JobScheduling.Job | problem1/index.js:12-16 | (datatype, no contract) a job: its start time, end time and profit as integers |
| JobScheduling.LastNonConflict | problem1/index.js:25-31 | (no contract of its own) the value `findLastNonConflict` returns: `LastNonConflictBelow` with the bound at `index`, characterised by that function's contract |
| JobScheduling.TakesJob | problem1/index.js:46-47 | (predicate, no contract) the walk's decision at job `i`: no compatible predecessor, or `jobs[i].profit` plus that predecessor's profit exceeds `jobs[i - 1].profit`; it is well-formed, so `jobs[i - 1]` is only read for `i >= 1` |
| JobScheduling.Profit | problem1/index.js:65-67 | (no contract) the sum of the profits, the `reduce` fold from 0 |
| JobScheduling.LastNonConflictBelow | problem1/index.js:26-31 | the result is -1 or an index below the bound that is compatible with the job, and no index between the result and the bound is compatible |
| JobScheduling.FindLastNonConflict | problem1/index.js:25-31 | the backward scan with early return gives -1 or an index `r < index` with `jobs[r].endTime <= jobs[index].startTime`, and no later index before `index` qualifies; for index 0 it is always -1 |
| JobScheduling.LastNonConflictUnique | problem1/index.js:26-31 | these three properties determine the scan's result uniquely |
| JobScheduling.NextVisit | problem1/index.js:44-53 | the next index the walk visits is strictly smaller and at least -1, so the loop terminates |
| JobScheduling.TakenFrom | problem1/index.js:44-56 | the indices taken from `i` downwards lie in `0..i`, are strictly increasing after the reverse, and there is at least one when `i >= 0` |
| JobScheduling.Reverse | problem1/index.js:56 | the reversed array has the same length and element `k` is element `n-1-k` of the original |
| JobScheduling.DetermineJobsTaken | problem1/index.js:39-57 | the pushed and reversed jobs are exactly the jobs at the walk's taken indices, in ascending order; there are at most `n` of them and at least one when `n > 0`; `jobs[i - 1]` is read only when `i >= 1` |
| JobScheduling.PushTaken | problem1/index.js:46-50 | pushing the taken job `i` and jumping to its predecessor keeps the walk's invariant |
| JobScheduling.WalkFinished | problem1/index.js:56 | once the walk reaches -1, reversing the pushed jobs gives the walk's selection, and it holds at most `n` jobs |
| JobScheduling.TakenLength | problem1/index.js:41-56 | a walk from `i` takes at most `i + 1` jobs |
| JobScheduling.TakenAreVisitedTakes | problem1/index.js:44-53 | an index is taken exactly when the walk visits it and its decision there is to take |
| JobScheduling.VisitedBelow | problem1/index.js:44-53 | a walk from `i` visits only indices in `0..i` |
| JobScheduling.VisitedUnconstrainedTaken | problem1/index.js:46-50 | a visited job without a compatible predecessor is always taken, because `||` short-circuits |
| JobScheduling.FirstJobTakenWhenVisited | problem1/index.js:46-50 | job 0 is taken whenever the walk reaches it |
| JobScheduling.EarliestTakenUnconstrained | problem1/index.js:44-53 | the earliest taken job has no compatible predecessor: the walk only ends by jumping to -1 |
| JobScheduling.PartitionKeepsCount | problem1/index.js:68 | splitting the jobs into taken and not taken loses no job |
| JobScheduling.PartitionKeepsProfit | problem1/index.js:65-68 | total profit minus the taken jobs' profit is the profit of the jobs not taken |
| JobScheduling.SelectIsSubsequence | problem1/index.js:49-56 | jobs selected at strictly increasing indices are those jobs in their original order |
| JobScheduling.TakenIsSubsequence | problem1/index.js:41-56 | the returned jobs are a subsequence of the input in its original order |
| JobScheduling.JobsLeftForOthers | problem1/index.js:64-69 | the count and earnings are the size and total profit of the jobs the walk does not take; count plus the number taken is `n`, and the count is below `n` for a non-empty input |
| JobScheduling.MiddleTaken | problem1/index.test.js:15-30 | on three jobs where the last job's predecessor is job 0 and it is declined, and job 1 has no predecessor, only job 1 is taken and jobs 0 and 2 are left |
| JobScheduling.ExampleOverlappingTrio | problem1/index.test.js:15-22 | the first test input gives `[2, 400]` by taking only (1000, 1200, 500) |
| JobScheduling.ExampleHeavyMiddle | problem1/index.test.js:23-30 | the second test input gives `[2, 400]` |
| JobScheduling.EqualProfitsWalk | problem1/index.test.js:31-38 | on the third test input the walk takes jobs 0 and 2 and leaves job 1 |
| JobScheduling.ExampleEqualProfits | problem1/index.test.js:31-38 | the third test input gives `[1, 100]`, with jobs 0 and 2 taken |
| JobScheduling.WalkMayTakeOverlappingJobs | problem1/index.js:46-50 | on four concrete jobs the walk takes jobs 1 and 3, which overlap |
| GoodiesDistribution.Goodie | problem2/index.js:24 | (datatype, no contract) a goodie: its name and its integer price |
| GoodiesDistribution.MinDiff | problem2/index.js:30 | (datatype, no contract) the smallest difference so far: `Infinity` before any window, then a finite value |
| GoodiesDistribution.Distribution | problem2/index.js:41 | (datatype, no contract) the returned object `{ chosenGoodies, minDiff }` |
| GoodiesDistribution.Spread | problem2/index.js:34 | (no contract) `diff` of the window at `i`: the price of goodie `i + k - 1` minus that of goodie `i` |
| GoodiesDistribution.BestDistribution | problem2/index.js:30-41 | (no contract of its own) `[]` and `Infinity` when `k > n`, otherwise the slice at `BestStart` and its spread; its meaning is stated by `BestDistributionIsBestWindow` |
| GoodiesDistribution.Insert | problem2/index.js:28 | inserting one goodie behind every goodie no dearer than it adds exactly one element |
| GoodiesDistribution.InsertAddsOne | problem2/index.js:28 | insertion adds the goodie and loses nothing (multisets) |
| GoodiesDistribution.InsertStaysBelow | problem2/index.js:28 | insertion keeps every price under a bound that the goodie and the sequence respect |
| GoodiesDistribution.InsertKeepsSorted | problem2/index.js:28 | inserting into a price-sorted sequence keeps it sorted |
| GoodiesDistribution.SortByPrice | problem2/index.js:28 | the stable sort keeps the length |
| GoodiesDistribution.SortByPriceIsPermutation | problem2/index.js:28 | the sorted goodies are a permutation of the input |
| GoodiesDistribution.SortByPriceIsSorted | problem2/index.js:28 | the sorted goodies are in ascending price order |
| GoodiesDistribution.InsertKeepsOrderOfEqualPrices | problem2/index.js:28 | insertion places the goodie after all goodies of its own price |
| GoodiesDistribution.PassDearerKeepsOrder | problem2/index.js:28 | passing a strictly dearer goodie does not change the order among goodies of any one price |
| GoodiesDistribution.SortByPriceIsStable | problem2/index.js:28 | for every price, the goodies of that price keep their original relative order |
| GoodiesDistribution.SortGoodiesByPrice | problem2/index.js:28 | the in-place sort leaves the array equal to the stable sort of its old contents: sorted, a permutation, and stable |
| GoodiesDistribution.InsertIntoSortedPrefix | problem2/index.js:28 | one pass of the insertion sort inserts `a[i]` into the sorted prefix and leaves the rest of the array alone |
| GoodiesDistribution.FirstBestWindow | problem2/index.js:33-39 | among the first `m` windows, the result has a spread no larger than any of them and strictly smaller than every earlier one (ties go to the lowest start) |
| GoodiesDistribution.BestStart | problem2/index.js:33-39 | the best window starts in `0..n-k` |
| GoodiesDistribution.ScanWindows | problem2/index.js:30-41 | the loop ends with the distribution of the first window of smallest spread, or with an empty selection and `Infinity` when `k > n` |
| GoodiesDistribution.ScanStep | problem2/index.js:34-38 | one iteration replaces the kept window exactly when the new spread is strictly below the kept one, or nothing is kept yet |
| GoodiesDistribution.BestDistributionIsBestWindow | problem2/index.js:30-41 | the result for `k > n` is empty with `Infinity`; otherwise it is a slice of `k` consecutive sorted goodies, its difference is last minus first price, no larger than any window's, strictly smaller than every earlier window's, and non-negative on sorted goodies |
| GoodiesDistribution.FindGoodiesDistribution | problem2/index.js:27-42 | the caller's array ends up stably sorted, and the result is the best distribution over the sorted array |
| GoodiesDistribution.ExampleTwoOfThree | problem2/index.test.js:26-43 | prices 100, 500, 300 and two employees give Goodie1 and Goodie3 with difference 200 |
| GoodiesDistribution.ExampleEqualPrices | problem2/index.js:28-39 | with all prices equal, the stable sort and the strict comparison choose the first two goodies, difference 0 |
| GoodiesDistribution.ExampleTooFewGoodies | problem2/index.js:30-41 | more employees than goodies gives an empty selection and `Infinity`, with no error |

## Left out

- File input and output are not modelled: `readFile`, `readAndProcessFile` and `writeOutputToFile` in `problem1/index.js`, and `readInputFile`, `writeOutputToFile` and `processGoodiesDistribution` in `problem2/index.js`.
- Parsing of text into numbers (`Number`, `parseInt`: leading zeros, `NaN`) is left out, together with the file reads it belongs to. Times, prices and profits are integers.
- JavaScript number semantics are not modelled: floating point, `NaN`, and rounding of very large sums. Numbers are unbounded integers.
- `FindGoodiesDistribution` requires `k >= 1`. For `k <= 0` the loop still runs at `i = 0` and reads `goodies[k - 1].price`. The index `k - 1` is negative, so the element is `undefined` and the read throws a `TypeError`. That crash is not modelled.
- GoodiesDistribution.SortGoodiesByPrice: the engine's sorting algorithm is not modelled, only its result. The sort is stable and compares by price, so its result is unique; an insertion sort reaches the same array.
- An optimal, non-overlapping job selection is not modelled, because the code does not compute one (see above). No error for `k > n` is modelled either, because the code raises none.
- The Jest scaffolding and its mocks are not modelled. The test inputs appear only as the example members.

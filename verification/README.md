# Sort-step engine, modelled in Dafny

This project models the trace-generating core of a sorting-algorithm visualizer,
`services/sortingLogic.ts`, and the two shared shapes from `types.ts`. The core does
not return a sorted array. Each of its ten generators (Bubble, Selection, Insertion,
Quick, Merge, Heap, Shell, Counting, Radix and a simplified Tim sort) sorts a private
copy of the input. At every highlight, comparison or write it appends a snapshot, a
`SortStep`, to a trace. The dispatcher `getSortSteps` picks the generator from a
closed ten-value enumeration.

Layout, one module per file:

- `types.dfy` (`Types`): `AlgorithmType`, `SortStep` (the `array` field is called
  `values`, because `array` is a Dafny keyword), and the `Result` of the dispatcher.
- `recorder.dfy` (`Recorder`): `createStep`, plus the predicates on traces.
  - Every snapshot has the input's length.
  - Reported-sorted positions only grow.
  - Writes of two positions remove a strict inversion (`StrictSwaps`), kept by Bubble,
    Selection, Insertion and Tim sort. Quick sort may exchange a position with itself or
    equal values, and heap sort's sift-down exchange shows the larger value first.
- `order.dfy` (`Order`): sortedness, permutation facts, `Math.max`, and a reference
  sort `SortOf`. Every generator's last snapshot is proved equal to `SortOf` of the
  input.
- One module per algorithm: `bubble.dfy`, `selection.dfy`, `insertion.dfy`,
  `quick.dfy`, `merge.dfy`, `heap.dfy`, `shell.dfy`, `counting.dfy`, `radix.dfy` and
  `tim.dfy`.
  - Tim sort's run phase records exactly the steps of the insertion loop, so it reuses
    `Insertion.InsertionRun`.
  - Tim sort's merge phase records exactly the steps of merge sort's `merge`, so it
    reuses `Merge.MergeSegments`.
- `dispatch.dfy` (`Dispatch`): `getSortSteps`.

The working buffer is a `seq<int>` threaded through methods as a value, and the trace
is a `seq<SortStep>`. A snapshot therefore cannot alias the buffer or the list of
sorted positions. `createStep`'s copies (`[...array]`, `[...sorted]`) are automatic,
and every helper's contract says that earlier steps stay as they were (`trace <= trace'`).

Each generator has two kinds of partner:

- Reference definitions:
  - `Order.SortOf` for the final array.
  - `Merge.MergeSeqs` for one merge.
  - `Radix.Distribute` (ten stable digit buckets) for one radix pass.
  - `Counting.Block` (each value repeated by its count) for the counting rebuild.
  - Step accounts: the positions a trace overwrites on their own
    (`Recorder.Overwritten`, one per overwrite step, against `Merge.SortWrites`
    and `Tim.TimWrites`), the positions it highlights on their own
    (`Recorder.Highlighted`, against `Shell.GapHighlights`), and every step of
    Radix sort (`Radix.RadixSteps`).
- Invariants kept step by step: heap order, partition, gap order, and runs.

Behaviour of the code worth knowing:

- Only Bubble, Selection and Insertion record the input as an initial step. The other
  seven begin with a comparison or highlight step, which each generator's contract
  names. For n ≤ 1 they record a single final step, except for:
  - Counting, which records three steps for one value.
  - Radix, which runs its passes on a single positive value.
- Counting sort on an empty input does not produce a trace. `Math.max()` is
  `-Infinity`, and `new Array(-Infinity + 1)` throws. The model returns
  `Failure(InvalidArrayLength)`.
- Heap sort's final list of sorted positions is `n-1, …, 1, 0`, not `0..n-1`. On an
  empty input it is `[0]`.
- Counting sort's overwrite step for position p reports `0..p-1` as sorted, not
  `0..p`.

## Model

| member | source | states |
|---|---|---|
| Recorder.CreateStep | services/sortingLogic.ts:4-16 | a snapshot holds exactly the given array, comparison, swap and sorted lists; because the buffer and the trace are values, the independence the source gets from copying is stated by every helper's `trace <= trace'` ensures: later writes never change an earlier step |
| Recorder.Range | services/sortingLogic.ts:42 | `Array.from({length: n}, (_, i) => i)` has length n and holds i at index i |
| Recorder.Span | services/sortingLogic.ts:398-400 | the positions lo..hi-1 in order, none when hi <= lo; helper for the overwrite accounts |
| Recorder.SpanJoin | services/sortingLogic.ts:155-182 | consecutive runs of positions join into one; helper for the overwrite accounts |
| Recorder.UpToPrefix | services/sortingLogic.ts:4-16 | extending a trace does not change what its first steps overwrote or highlighted |
| Recorder.OverwrittenAppend | services/sortingLogic.ts:160 | recording one more step adds exactly that step's single overwritten position, if any, to the trace's overwrites |
| Recorder.HighlightedAppend | services/sortingLogic.ts:268 | recording one more step adds exactly that step's single highlighted position, if any, to the trace's highlights |
| Recorder.WritesChain | services/sortingLogic.ts:155-182 | two runs of unmarked steps writing at most one position each form one run whose overwrites are the first run's followed by the second's |
| Recorder.ShowsChain | services/sortingLogic.ts:264-278 | two runs of unmarked steps form one run whose highlights are the first run's followed by the second's |
| Recorder.WritesConsistent | services/sortingLogic.ts:155-182 | unmarked steps that write at most one position keep a trace with nothing sorted consistent |
| Recorder.WritesStrict | services/sortingLogic.ts:155-182 | steps that write at most one position keep every two-position swap strict |
| Recorder.Append | services/sortingLogic.ts:4-16 | recording a snapshot of length n whose marks include the current ones keeps the trace consistent, keeps every earlier step, and keeps the strict-swap property |
| Recorder.PrefixAt | services/sortingLogic.ts:4-16 | a step once recorded is still at its index after the trace grows |
| Recorder.ExtendsConsistent | services/sortingLogic.ts:4-16 | steps recorded with an unchanged list of sorted positions keep a trace consistent |
| Recorder.RangeMarks | services/sortingLogic.ts:42 | a list of positions below n marks no more than the final list 0..n-1 |
| Recorder.NothingMarked | services/sortingLogic.ts:87-96 | a consistent trace whose current marks are empty has marked nothing in any step |
| Recorder.FinishUnmarked | services/sortingLogic.ts:367 | the final step closes an unmarked trace consistently, with every earlier step unchanged and unmarked |
| Recorder.FinishKeepsOverwritten | services/sortingLogic.ts:194 | the final step neither overwrites nor highlights a position on its own |
| Recorder.FinishUnmarkedWrites | services/sortingLogic.ts:194 | the final step closes a run of unmarked steps consistently, and the run's overwrites are the whole trace's |
| Order.MaxOf | services/sortingLogic.ts:288 | `Math.max` of a non-empty list is one of its values and at least every value |
| Order.Swap | services/sortingLogic.ts:32-34 | the exchange puts each value at the other position, leaves all other positions alone and keeps the multiset |
| Order.SortOf | services/sortingLogic.ts:42 | the reference result: a sorted permutation of the input of the same length |
| Order.SortedPermutationUnique | services/sortingLogic.ts:42 | two sorted lists with the same multiset are equal, so the sorted result of an input is unique |
| Order.SortedPermutationIsSortOf | services/sortingLogic.ts:42 | any sorted permutation of the input is exactly the reference sort |
| Order.SegmentPermutation | services/sortingLogic.ts:110-130 | helper for partition: a permutation that leaves everything outside [lo, hi) alone permutes [lo, hi) among itself |
| Order.PermutationFromSegment | services/sortingLogic.ts:149-183 | helper for the merge write-back: rewriting only [lo, hi) with a permutation of it permutes the whole array |
| Order.SegmentAtMost | services/sortingLogic.ts:26-40 | helper for the bubble passes: an upper bound on a segment survives any permutation of that segment |
| Order.SegmentAtLeast | services/sortingLogic.ts:132-138 | helper for the quick sort recursion: a lower bound on a segment survives any permutation of that segment |
| Bubble.CompareAndSwap | services/sortingLogic.ts:28-36 | exactly one comparison step of j, j+1, then a swap step showing the exchanged array only when a[j] > a[j+1]: equal neighbours stay, the pair ends ordered, and nothing else moves |
| Bubble.BubblePass | services/sortingLogic.ts:27-37 | one inner pass carries the maximum of a[0..m] to m, leaves everything after m alone, and records only comparisons of two positions, with the current marks |
| Bubble.BubbledStep | services/sortingLogic.ts:26-40 | after pass i the last i+1 positions hold the largest values in order |
| Bubble.GenerateBubbleSortSteps | services/sortingLogic.ts:18-45 | BubbleTrace: the first step is the input; the step before the last reports n-1, n-2, …, 0 sorted, one more per pass; the last shows a sorted permutation with 0..n-1 marked; every swap removes a strict inversion |
| Selection.SortedIffMins | services/sortingLogic.ts:55-71 | an array is sorted exactly when each position holds the minimum of the rest |
| Selection.SwapsAfter | services/sortingLogic.ts:66-71 | a trace is free of write steps exactly when it was before one iteration and that iteration did not swap |
| Selection.FirstMinIsMin | services/sortingLogic.ts:59-64 | FirstMin(a, i, j) is at most every value of a[i..j) and strictly below every value before it, that is the first position of the minimum |
| Selection.ScanStepsAt | services/sortingLogic.ts:59-64 | the scan's k-th step compares the first minimum of a[i..i+1+k) with i+1+k over the unchanged array, with the current marks and no write |
| Selection.FindMin | services/sortingLogic.ts:56-64 | the scan returns FirstMin(a, i, n) and records exactly ScanSteps: one comparison step [FirstMin(a, i, j), j] for each j in i+1..n-1, in order; none writes and all show the current marks |
| Selection.HighlightScan | services/sortingLogic.ts:56-64 | iteration i records the highlight of i first and then only write-free steps with the current marks, and finds the first minimum of a[i..n) |
| Selection.SelectInto | services/sortingLogic.ts:55-71 | iteration i first highlights i; it finds the minimum m of a[i..n), m == i exactly when a[i] is already at most every later value, and then the array is unchanged and no step writes; otherwise the last step shows the exchange of i and m; every step shows the current marks |
| Selection.SelectedStep | services/sortingLogic.ts:55-72 | after iteration i, a[0..i] is in order and at most every later value |
| Selection.UnwrittenStep | services/sortingLogic.ts:55-73 | the trace so far has no write step exactly when each of the first i positions already held its minimum in the input |
| Selection.SelectionRound | services/sortingLogic.ts:55-73 | one outer iteration carries the loop state from i to i+1: a[0..i] in order and below the rest, the write account, and the marks 0..i |
| Selection.GenerateSelectionSortSteps | services/sortingLogic.ts:47-76 | SelectionTrace: first step the input; the step before the last shows 0..n-2 sorted, as the last iteration runs after n-1 pushes; last a sorted permutation with 0..n-1 marked; no step writes exactly when the input is already sorted; every two-position write removes a strict inversion |
| Insertion.SinkStep | services/sortingLogic.ts:89-97 | exchanging a strictly greater left neighbour moves the sinking value one place left and keeps the rest in order |
| Insertion.SinkDone | services/sortingLogic.ts:89 | the loop test fails exactly when a[lo..j] is sorted, in both directions |
| Insertion.ExchangeDown | services/sortingLogic.ts:90-96 | exactly a comparison step of the two neighbours over the old array and a swap step over the exchanged one, and the comparison shows a strict inversion |
| Insertion.Sink | services/sortingLogic.ts:86-98 | a[j] sinks into the sorted a[lo..j), leaving a[lo..j] sorted, a permutation, and the rest alone; every comparison step it records shows a strict inversion, so the failing test is never recorded; it overwrites nothing on its own |
| Insertion.InsertOne | services/sortingLogic.ts:85-98 | one outer iteration: a highlight step for j first, then the sinking of a[j] |
| Insertion.InsertionRun | services/sortingLogic.ts:85-99 | insertion sort of [lo, hi): only that range changes and it ends sorted; nothing is recorded for a range of length at most 1, otherwise the first step highlights lo+1 |
| Insertion.GenerateInsertionSortSteps | services/sortingLogic.ts:78-103 | InsertionTrace: first step the input, then the highlight of 1; every comparison step shows a strict inversion; no marks before the final step, last a sorted permutation with 0..n-1 marked |
| Quick.PartitionStep | services/sortingLogic.ts:114-122 | one scan position records exactly its comparison [j, high] with the pivot, followed, only when a[j] is strictly below the pivot, by the exchange of i+1 and j and its swap step; it keeps the partition: values up to i are strictly below the pivot, values from i+1 to j are at least it |
| Quick.GrowLow | services/sortingLogic.ts:116-122 | with a[j] strictly below the pivot, the exchange of i+1 and j is recorded as exactly one swap step and grows the region below the pivot by one |
| Quick.Partition | services/sortingLogic.ts:110-130 | returns p in [low, high] with the old pivot at p, a[low..p) strictly below it and a(p..high] at least it; only [low, high] is permuted; the first step compares low with the pivot and the last shows the pivot exchanged into p |
| Quick.QuickSortRange | services/sortingLogic.ts:132-138 | sorts a[low..high] in place, touches nothing else, records nothing on a range of length at most 1 and otherwise starts with the comparison of low with high |
| Quick.GenerateQuickSortSteps | services/sortingLogic.ts:106-143 | QuickTrace: no initial step: with two values or more the first step compares 0 with n-1; a single step for n ≤ 1, no marks before the final step, last a sorted permutation with 0..n-1 marked |
| Merge.MergeSeqs | services/sortingLogic.ts:155-182 | the reference merge has the length of both lists |
| Merge.MergePermutes | services/sortingLogic.ts:149-183 | the merge holds exactly the values of both halves |
| Merge.MergeSorted | services/sortingLogic.ts:149-183 | the merge of two sorted halves is sorted and starts with one of their heads |
| Merge.MergeWithEmpty | services/sortingLogic.ts:170-182 | once one list is used up, the merge is the rest of the other, as the closing loops copy it |
| Merge.TakeLeft | services/sortingLogic.ts:158-161 | when the left head is at most the right head (ties go left), the merge continues with the left tail |
| Merge.TakeRight | services/sortingLogic.ts:162-166 | when the right head is smaller, the merge continues with the right tail |
| Merge.Overwrite | services/sortingLogic.ts:159-160 | one write at k followed by exactly one overwrite step for k over the written array |
| Merge.MergeOne | services/sortingLogic.ts:155-167 | one iteration records the comparison of the two heads, then writes the next value of the reference merge at start + i + j with its overwrite step |
| Merge.MergeHeads | services/sortingLogic.ts:155-168 | the first loop stops when one copy is used up, with the written prefix equal to the prefix of the reference merge, one overwrite step per written position, and the first comparison first |
| Merge.CopyRest | services/sortingLogic.ts:170-182 | the closing loops copy the rest of one copy in order, one overwrite step per position, and touch nothing else |
| Merge.MergeTails | services/sortingLogic.ts:170-182 | after the first loop, the two closing loops complete the reference merge and the overwrites of every position of the segment |
| Merge.MergeSegments | services/sortingLogic.ts:149-183 | merge(start, mid, end) leaves a[start..end] equal to the stable reference merge of the two halves, nothing else changed, the first step compares start with mid+1, and the steps overwrite start, start+1, …, end once each in that order |
| Merge.MergedSegment | services/sortingLogic.ts:149-183 | after the merge the array is a permutation of what it was, and sorted halves give a sorted [start, end] |
| Merge.SortWrites | services/sortingLogic.ts:185-191 | the positions mergeSort(start, end) overwrites in order, all within [start, end] |
| Merge.MergedWrites | services/sortingLogic.ts:185-191 | the overwrites of both recursive calls followed by those of the merge are the overwrites of mergeSort(start, end) |
| Merge.MergeSortRange | services/sortingLogic.ts:185-191 | mergeSort(start, end) sorts a[start..end], permutes only it, overwrites exactly SortWrites(start, end), records nothing on a range of length at most 1 and otherwise starts by comparing start with start+1 |
| Merge.GenerateMergeSortSteps | services/sortingLogic.ts:145-196 | MergeTrace: no initial step: with two values or more the first step compares 0 with 1; the trace overwrites exactly SortWrites(0, n-1); a single step for n ≤ 1, no marks before the final step, last a sorted permutation with 0..n-1 marked |
| Heap.SubtreeOfChild | services/sortingLogic.ts:233 | the subtree of a child lies inside the subtree of its parent |
| Heap.RootIsMax | services/sortingLogic.ts:243-246 | the root of a max-heap is its largest value |
| Heap.PickLargest | services/sortingLogic.ts:207-225 | largest is i or a child inside the heap, at least i and both children, and differs from i only on a strictly greater child; one highlight step of i, then the comparison [i, left] when left is inside the heap and [largest so far, right] when right is, over the unchanged array |
| Heap.Heapify | services/sortingLogic.ts:206-235 | heapify(n, i) starts with the highlight of i, restores heap order from i on when it held below i, changes only the subtree of i, puts at i the value of i or of one of its children, and changes nothing when the heap order already holds at i |
| Heap.SiftFrom | services/sortingLogic.ts:227-234 | the exchange of i with its larger child is recorded as a swap step, then the sift-down continues from the child |
| Heap.SwapKeepsLower | services/sortingLogic.ts:227-230 | exchanging i with a child leaves the heap order below that child intact |
| Heap.SiftedDown | services/sortingLogic.ts:227-234 | the exchange and the recursive sift-down restore heap order from i on and change only the subtree of i |
| Heap.BuildHeap | services/sortingLogic.ts:237-240 | the build loop makes a max-heap permutation of the input; it records nothing for n ≤ 1 and otherwise starts by highlighting n/2-1 |
| Heap.HeapMarksCover | services/sortingLogic.ts:248-254 | Heap sort's final list of sorted positions holds every position, and only positions, when n > 0 |
| Heap.Extract | services/sortingLogic.ts:243-252 | one extraction moves the maximum to i; its first step shows the exchange of 0 and i with i added to the marks, the next highlights the root, and every step it records shows i marked; a max-heap remains on [0, i) and everything after i is left alone |
| Heap.SortDown | services/sortingLogic.ts:242-253 | the extraction loop ends on a sorted permutation with the list n-1, …, 1, which its last step shows sorted for n ≥ 2; it records nothing for n ≤ 1 and keeps every earlier step |
| Heap.DownStep | services/sortingLogic.ts:243-252 | one extraction carries the loop state to i-1 with one more mark |
| Heap.ExtractedValues | services/sortingLogic.ts:243-252 | the exchange of root and i followed by the sift-down leaves a max-heap on [0, i) whose values are all at most the old root, now at i |
| Heap.GenerateHeapSortSteps | services/sortingLogic.ts:200-257 | HeapTrace: no initial step: with two values or more the first step highlights n/2-1 and the step before the last shows n-1, …, 1 sorted; a single step for n ≤ 1, marks only grow, last a sorted permutation with n-1, …, 0 marked ([0] when empty) |
| Shell.AdjacentSorted | services/sortingLogic.ts:264 | an array in order at gap 1 is sorted, so the last pass leaves it sorted |
| Shell.Shift | services/sortingLogic.ts:270-274 | one shift copies a[j-gap] up to j with exactly two steps: the comparison of j and j-gap over the old array, then the overwrite of j over the new one |
| Shell.LiftShift | services/sortingLogic.ts:270-274 | shifting a value greater than temp keeps the gap chain in order and the values (with temp in the hole) a permutation |
| Shell.LiftDone | services/sortingLogic.ts:276 | writing temp into the hole where the loop stopped leaves a[0..i] in gap order and a permutation of the input |
| Shell.ShiftChain | services/sortingLogic.ts:270-275 | the shift loop stops at the hole where temp belongs, recording only unmarked steps that highlight no single position |
| Shell.GapInsert | services/sortingLogic.ts:265-277 | one position of a pass first highlights i, then ends with the place step writing a[i] at its place, even without a shift; it extends the gap order to a[0..i] and permutes only [0, i] |
| Shell.ShellPass | services/sortingLogic.ts:265-278 | one gapped pass leaves the whole array in gap order and permuted, highlights gap, gap+1, …, n-1 one by one, and records nothing when gap ≥ n |
| Shell.ShellPasses | services/sortingLogic.ts:264-279 | the gap loop from gap on sorts the array and highlights exactly GapHighlights(n, gap) |
| Shell.PassesShow | services/sortingLogic.ts:264-279 | one pass's highlights followed by the later passes' are the highlights of the gap loop from gap on |
| Shell.GenerateShellSortSteps | services/sortingLogic.ts:259-283 | ShellTrace: no initial step: with two values or more the first step highlights n/2; the trace highlights exactly the positions of the passes for n/2, n/4, …, 1; a single step for n ≤ 1, no marks before the final step, last a sorted permutation with 0..n-1 marked |
| Counting.RepCount | services/sortingLogic.ts:320-325 | k copies of v hold v k times and nothing else |
| Counting.BlockCount | services/sortingLogic.ts:319-326 | the rebuild up to value hi holds each v in [0, hi) as often as the input does, and nothing else |
| Counting.BlockSorted | services/sortingLogic.ts:319-326 | the rebuild writes values in ascending order, all within [0, hi) |
| Counting.BlockPrefix | services/sortingLogic.ts:319-326 | going through more counts only extends what was written |
| Counting.BlockPermutes | services/sortingLogic.ts:319-326 | the complete rebuild is a permutation of the input, of the same length |
| Counting.BlockIsSortOf | services/sortingLogic.ts:319-326 | the complete rebuild is exactly the reference sort of the input |
| Counting.CountValues | services/sortingLogic.ts:316-317 | `reconstructCounts[v]` is the number of occurrences of v in the input |
| Counting.Highlights | services/sortingLogic.ts:296-299 | the counting phase records one highlight step per position over the unchanged input |
| Counting.BlockRun | services/sortingLogic.ts:320-325 | the count of v appends that many copies of v right after the smaller values |
| Counting.PlaceCopies | services/sortingLogic.ts:320-325 | the inner loop writes the copies of v one by one, each with an overwrite step showing the written prefix over the rest of the input and 0..p-1 marked |
| Counting.Rebuild | services/sortingLogic.ts:319-326 | the rebuild writes the whole reference block with one overwrite step per position |
| Counting.CountingSteps | services/sortingLogic.ts:296-328 | highlights, rebuild and final step form a counting trace of 2n + 1 steps |
| Counting.CountingConsistent | services/sortingLogic.ts:322 | in a counting trace the marks 0..p-1 only grow and every snapshot has the input's length |
| Counting.GenerateCountingSortSteps | services/sortingLogic.ts:285-330 | fails exactly on an empty input; otherwise n highlights, n overwrites of the growing sorted prefix, and the sorted input with 0..n-1 marked |
| Radix.Digit | services/sortingLogic.ts:343 | `Math.floor(x / exp) % 10` is a decimal digit |
| Radix.KeySplit | services/sortingLogic.ts:343 | x modulo 10·exp is the digit at exp times exp plus x modulo exp |
| Radix.KeyByDigit | services/sortingLogic.ts:343 | a smaller digit at exp means a smaller key modulo 10·exp |
| Radix.KeyWithinDigit | services/sortingLogic.ts:343 | with equal digits, keys modulo 10·exp compare as keys modulo exp |
| Radix.BucketAppend | services/sortingLogic.ts:342-346 | bucketing a concatenation concatenates the buckets |
| Radix.BucketCount | services/sortingLogic.ts:354-358 | bucket d holds each value with digit d as often as the list does, and nothing else |
| Radix.BelowCount | services/sortingLogic.ts:354-358 | buckets 0..d-1 hold each value with digit below d as often as the list does |
| Radix.DistributePermutes | services/sortingLogic.ts:354-358 | a pass keeps the multiset and the length |
| Radix.BucketSortedBy | services/sortingLogic.ts:354-358 | taking one bucket keeps the order modulo exp (stability) |
| Radix.DistributeSorts | services/sortingLogic.ts:337-365 | values in order modulo exp are in order modulo 10·exp after the stable pass by the digit at exp |
| Radix.FromRegions | services/sortingLogic.ts:354-358 | a buffer holding each bucket in its region starts with all those buckets in order |
| Radix.StepCounts | services/sortingLogic.ts:355-357 | after placing a[j], its digit's count is one lower and is still the start of the unplaced part of that bucket |
| Radix.PlaceStep | services/sortingLogic.ts:354-358 | one right-to-left iteration keeps every placed bucket value in its region |
| Radix.PlaceEnd | services/sortingLogic.ts:354-358 | after the loop the output is exactly the ten buckets in order |
| Radix.Place | services/sortingLogic.ts:354-358 | the right-to-left build loop, given the accumulated counts, produces the stable distribution by digit |
| Radix.CountDigits | services/sortingLogic.ts:342-346 | count[d] is the size of bucket d, with one highlight step per position |
| Radix.Accumulate | services/sortingLogic.ts:349-351 | count[d] becomes the end of bucket d's region |
| Radix.CopyBack | services/sortingLogic.ts:361-364 | the copy-back makes the array the output, with one overwrite step per position showing the copied prefix |
| Radix.PassStepsLaidOut | services/sortingLogic.ts:342-364 | a pass's highlights of the old array followed by its overwrites showing the copied prefix are exactly PassSteps |
| Radix.RadixPass | services/sortingLogic.ts:338-364 | a pass turns the array into its stable distribution by digit and records exactly PassSteps: n highlights of the old array, then n overwrites |
| Radix.SortedOnceBelow | services/sortingLogic.ts:337 | once every value is below exp, order modulo exp is plain order |
| Radix.DigitsStep | services/sortingLogic.ts:337 | each pass uses up one decimal digit of max |
| Radix.PassKeeps | services/sortingLogic.ts:337-365 | a pass keeps the values and their bounds, and turns order modulo exp into order modulo ten times exp |
| Radix.PassStepsShape | services/sortingLogic.ts:342-364 | one pass records two steps per position, each over n values with nothing marked |
| Radix.RadixStepsShape | services/sortingLogic.ts:337-365 | the steps of the passes number two per position and remaining digit, each over n values with nothing marked |
| Radix.RadixStepsStart | services/sortingLogic.ts:342-346 | when a digit remains the steps begin with a highlight of each position in turn |
| Radix.PassesFrom | services/sortingLogic.ts:337-365 | the pass loop from exp on ends on a sorted permutation and records exactly RadixSteps: every pass's steps over the array it starts from |
| Radix.Passes | services/sortingLogic.ts:337-365 | one pass per decimal digit of max, ending on a sorted permutation, with every step as RadixSteps lists it |
| Radix.GenerateRadixSortSteps | services/sortingLogic.ts:332-369 | RadixTrace: every step before the last is the one RadixSteps lists for the input; 2·n·(digits of max) + 1 steps, a single step for an empty or all-zero input, no marks before the final step, last a sorted permutation with 0..n-1 marked |
| Tim.Join | services/sortingLogic.ts:379-394 | sorted blocks below x and from x on are all the blocks |
| Tim.RunsFromFrame | services/sortingLogic.ts:398-432 | sorted blocks from a position on are unaffected by writes below it |
| Tim.RunsUpToFrame | services/sortingLogic.ts:398-432 | sorted blocks below a position are unaffected by writes from it on |
| Tim.SortRuns | services/sortingLogic.ts:379-394 | every block of RUN = 4 values (the last cut short) ends sorted, as a permutation, with only strict-inversion swaps and no overwrite steps; nothing is recorded for n ≤ 1, otherwise the first step highlights 1 |
| Tim.RunsNext | services/sortingLogic.ts:379-394 | sorting one more block carries the run-phase state on by RUN positions |
| Tim.PairWrites | services/sortingLogic.ts:399-401 | the positions a pair merge overwrites are left, left+1, … in order, all below n: up to the end of the second block when there is one, none otherwise |
| Tim.PassWritesInRange | services/sortingLogic.ts:398-432 | a sweep from left overwrites only positions in [left, n) |
| Tim.MergePair | services/sortingLogic.ts:399-431 | the pair of blocks at left becomes one sorted block and nothing else changes, overwriting PairWrites and starting with the comparison of the two heads; with no second block the array and the trace are unchanged |
| Tim.MergePass | services/sortingLogic.ts:398-432 | a sweep turns sorted blocks of width size into sorted blocks of width 2·size and overwrites exactly PassWrites(n, size, 0) |
| Tim.SweepFrom | services/sortingLogic.ts:398-432 | the sweep from left on makes every block of width 2·size sorted and overwrites exactly PassWrites(n, size, left) |
| Tim.SweepWrites | services/sortingLogic.ts:398-432 | one pair's overwrites followed by the rest of the sweep's are the sweep's |
| Tim.MergePasses | services/sortingLogic.ts:397-433 | the doubling loop from size on sorts the array and overwrites exactly TimWrites(n, size); nothing happens when size ≥ n |
| Tim.PassesWrites | services/sortingLogic.ts:397-433 | one sweep's overwrites followed by the later passes' are TimWrites(n, size) |
| Tim.TimMerged | services/sortingLogic.ts:397-433 | the merge passes keep the run phase's trace consistent with strict swaps, and it then overwrites exactly TimWrites(n, RUN) |
| Tim.TimPhases | services/sortingLogic.ts:378-433 | the run phase and the merge phase give a sorted permutation whose trace overwrites exactly TimWrites(n, RUN), is empty for n ≤ 1 and otherwise starts by highlighting 1 |
| Tim.GenerateTimSortSteps | services/sortingLogic.ts:371-437 | TimTrace: no initial step: with two values or more the first step highlights 1; the trace overwrites exactly the positions of the merge passes; a single step for n ≤ 1, no marks before the final step, last a sorted permutation with 0..n-1 marked |
| Dispatch.FinalMarks | services/sortingLogic.ts:253-254 | the final list of sorted positions covers every position, and only positions when n > 0 |
| Dispatch.EndsSorted | services/sortingLogic.ts:439-453 | a trace ending on a sorted permutation ends on the reference sort of the input |
| Dispatch.PresortedKept | services/sortingLogic.ts:439-453 | an input already in order is shown unchanged at the end |
| Dispatch.GeneratedEnds | services/sortingLogic.ts:439-453 | whichever generator the switch picks, the trace it promises ends on the reference sort of the input with that algorithm's final marks |
| Dispatch.GetSortSteps | services/sortingLogic.ts:439-453 | fails exactly for Counting sort on an empty input; otherwise each algorithm yields the trace its own generator promises (`GeneratedBy`: BubbleTrace for BubbleSort, CountingTrace for CountingSort, and so on), ending on the sorted input with every position reported sorted |

## Left out

- The UI (`App.tsx`, components), the playback timer, random input generation, the static pseudocode text in `constants.ts` and the network client in `services/geminiService.ts`: none of them is part of the step engine.
- The optional `description` field of `SortStep`: the engine never sets it.
- Counting sort's first count array, its cumulative sum and its `output` array (services/sortingLogic.ts:293-306): they are computed and never read, so they have no observable effect.
- JavaScript numbers are doubles. The model uses unbounded integers, which agree with the source for the small integer inputs the visualizer produces.
- Radix.GenerateRadixSortSteps: requires non-negative values. With a negative value the source's `Math.floor(x / exp) % 10` can be negative and indexes `count` with a negative key, which JavaScript turns into an object property. That behaviour is not modelled.
- Counting.GenerateCountingSortSteps: requires non-negative values, for the same reason (`count[arr[i]]` with a negative index).
- Dispatch.GetSortSteps: requires non-negative values for Radix and Counting sort only (`Accepts`), inheriting the two lines above.
- Radix.GenerateRadixSortSteps: `Math.max` of an empty list is `-Infinity`. The model uses -1 in its place, which fails the loop test in the same way.
- The `default` branch of the dispatcher's switch (services/sortingLogic.ts:451): it is unreachable because `AlgorithmType` is a closed datatype.
- Heap.GenerateHeapSortSteps, Quick.GenerateQuickSortSteps: their contracts name the first and last steps and the marks, but do not account for the comparison and swap steps in between one by one; Heap.Extract, Heap.PickLargest, Heap.SiftFrom and Quick.PartitionStep state those steps where they are recorded.
- Shell.GenerateShellSortSteps, Merge.GenerateMergeSortSteps, Tim.GenerateTimSortSteps: they account for every highlighted (Shell) or overwritten (Merge, Tim) position in order, and for the first and last steps, but not for the value each intermediate snapshot shows; Shell.Shift, Shell.GapInsert, Merge.Overwrite and Merge.MergeOne state those snapshots where they are recorded.
- Bubble.GenerateBubbleSortSteps, Selection.GenerateSelectionSortSteps, Insertion.GenerateInsertionSortSteps: they state the first and last steps, the marks shown just before the final step, strict swaps (and for Insertion strict comparisons), and for Selection when any write happens, but do not list every intermediate snapshot; Bubble.CompareAndSwap, Selection.FindMin, Selection.SelectInto and Insertion.ExchangeDown state those snapshots where they are recorded.

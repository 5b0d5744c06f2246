# Running median of response times: dual-heap and histogram collectors

The repository computes the median and average of a stream of HTTP response
times in two independent ways. Each file holds a `StatsCollector` with
`pushValue`, `getMedian` and `getAverage`.

- **Dual heap** (`calculate_median_using_heap.js`). Two array-backed
  implicit binary heaps share the index arithmetic of `HeapBase`:
  - a `MaxHeap` holds the lower half of the values;
  - a `MinHeap` holds the upper half.

  `pushValue` routes each value into one half and then calls
  `balanceTwoHeaps`. That moves one root across whenever the sizes differ by
  more than one, and then runs an extra `moveItemUpTheHeap` on the bigger heap.
  `getMedian` reads the median from the roots.
- **Histogram** (`calculate_median_using_histogram.js`). `pushValue` only
  appends. `getMedian` runs a `MedianCalculator` over the domain
  `[1, 19000]`, where 19000 ms is the response timeout:
  - one bin per integer;
  - a frequency count per bin, using `findBinIdx`;
  - a running total over the frequencies;
  - a first-match scan of the running total for the one or two middle ranks.

The Dafny model is functional. Arrays are sequences. The sift loops are
recursive functions whose termination measures are the loop's index.
`undefined` and `NaN` results are `None` of an `Option`. Values pushed into
the heap collector are exact `real`s. Values pushed into the histogram
collector are `int`s, because the bins are integers.

| file | module | what it holds |
|---|---|---|
| `options.dfy` | `Options` | `Option` |
| `heap_index.dfy` | `HeapIndex` | `HeapBase` index helpers and existence checks |
| `binary_heap.dfy` | `BinaryHeap` | min/max heap as one `Heap(order, arr)`, sift-up, sift-down, `addToHeap`, `extractRoot` |
| `sorted_stats.dfy` | `SortedStats` | reference definitions: insertion sort, textbook median, mean, threshold counts |
| `heap_collector.dfy` | `HeapCollector` | the dual-heap `StatsCollector` and its invariants |
| `histogram.dfy` | `Histogram` | `MedianCalculator` |
| `histogram_collector.dfy` | `HistogramCollector` | the histogram `StatsCollector` |
| `heap_examples.dfy` | `HeapExamples` | the heap unit-test cases as proved instances, and two illustrative collector runs |

`MinHeap` and `MaxHeap` differ only in the direction of their comparisons.
The model therefore uses one heap with an `Order`, either `MinFirst` or
`MaxFirst`, and a key, either `x` or `-x`:

- `Above` (key `<=`) is the heap order.
- `Precedes` (key `<`) is the strict test that stops a sift:
  - `parent < item` / `parent > item` for sift-up;
  - `item < smallerChild` / `item > biggerChild` for sift-down.

Because the stop tests are strict, equal values keep being swapped, as in
the source.

The heap collector's central invariant is `HeapCollector.Consistent`:

- both halves are heaps of the right orientation;
- their sizes differ by at most one;
- every value of the lower half is at most every value of the upper half;
- the two halves together hold exactly the multiset of pushed values;
- the lower half is non-empty once anything has been pushed.

`PushValue` preserves this invariant. `RootsAreMiddle` turns it into "the
roots are the middle order statistics".

The histogram's central statement is the contract of `Histogram.Calculate`.
The calculator returns the textbook median of exactly those pushed values that
land in a bin, and `None` when none do.

## Model

| member | source | states |
|---|---|---|
| HeapIndex.LeftChild | calculate_median_using_heap.js:27-30 | the left child of slot i is a slot whose parent is i again |
| HeapIndex.RightChild | calculate_median_using_heap.js:32-35 | the right child sits right after the left child and also has parent i |
| HeapIndex.Parent | calculate_median_using_heap.js:37-40 | floor((c-1)/2): c is one of the two child slots 2p+1, 2p+2 of its parent p |
| HeapIndex.HasParent | calculate_median_using_heap.js:53-56 | a parent exists exactly for the slots c >= 1 |
| HeapIndex.HasLeftChild | calculate_median_using_heap.js:43-46 | slot i has a left child exactly when 0 <= i < size/2: the internal nodes are the first half of the array |
| HeapIndex.HasRightChild | calculate_median_using_heap.js:48-51 | slot i >= 0 has a right child exactly when i < (size-1)/2, and then it has a left child too |
| HeapIndex.ParentOfChild | calculate_median_using_heap.js:27-56 | parent(left(i)) = parent(right(i)) = i; every non-root slot's parent is a smaller slot, of which it is a child |
| HeapIndex.IndexExamples | calculate_median_using_heap.js:290-328 | the index and existence cases the unit tests assert for a six-slot array |
| BinaryHeap.Swap | calculate_median_using_heap.js:74-78 | exchanges slots i and j and leaves every other slot alone |
| BinaryHeap.SwapPermutes | calculate_median_using_heap.js:74-78 | a swap keeps the multiset of the array |
| BinaryHeap.SiftUp | calculate_median_using_heap.js:108-126 | the sift-up loop keeps length and multiset; it terminates because the index strictly decreases |
| BinaryHeap.SiftDown | calculate_median_using_heap.js:129-150 | the sift-down loop keeps length and multiset; it terminates because the index strictly increases within the array |
| BinaryHeap.SiftUpStep | calculate_median_using_heap.js:112-123 | one swap with the parent moves the single order violation one level up |
| BinaryHeap.SiftUpRestoresHeap | calculate_median_using_heap.js:108-126 | sift-up from the one slot that may be out of order yields a heap |
| BinaryHeap.SiftUpOnHeap | calculate_median_using_heap.js:172-185 | on an array that is already a heap, sift-up returns the same array (it only swaps equal values) |
| BinaryHeap.SiftDownStep | calculate_median_using_heap.js:133-148 | one swap with the chosen child moves the single order violation one level down |
| BinaryHeap.SiftDownRestoresHeap | calculate_median_using_heap.js:187-207 | sift-down from the one slot that may be out of order yields a heap |
| BinaryHeap.RootIsExtreme | calculate_median_using_heap.js:80-82 | in a heap the root is above every element: the minimum of a min-heap, the maximum of a max-heap |
| BinaryHeap.LastToRoot | calculate_median_using_heap.js:99-102 | moving the last item into slot 0 and popping removes exactly one copy of the root and breaks heap order only at the root |
| BinaryHeap.Root | calculate_median_using_heap.js:80-82 | getRoot is undefined exactly on an empty heap; otherwise it is an element of the heap, and on a valid heap one at or beyond every element |
| BinaryHeap.MoveItemUp | calculate_median_using_heap.js:108-126 | moveItemUpTheHeap keeps the contents, restores heap order after a push, and leaves a valid heap unchanged |
| BinaryHeap.MoveItemDown | calculate_median_using_heap.js:129-150 | moveItemDownTheHeap keeps the contents and restores heap order after the root was replaced |
| BinaryHeap.AddToHeap | calculate_median_using_heap.js:91-95 | addToHeap yields a heap one longer whose multiset gains exactly the item |
| BinaryHeap.ExtractRoot | calculate_median_using_heap.js:98-105 | extractRoot returns the old root, which is the extreme element; the rest is a heap one shorter holding the old multiset minus that copy; on an empty heap the result is undefined and the heap is unchanged |
| HeapCollector.NewCollector | calculate_median_using_heap.js:212-216 | a new collector holds no responses and two empty halves, satisfies the collector invariant, and has no median and no average |
| HeapCollector.Route | calculate_median_using_heap.js:223-230 | the value goes into the lower half exactly when that half is empty or the value is strictly below its root, otherwise into the upper half; the other half is unchanged, and the halves stay heaps and partitioned |
| HeapCollector.RoutePartition | calculate_median_using_heap.js:223-230 | a value below the lower root goes low and any other value goes high, so every lower value stays at most every upper value |
| HeapCollector.ShiftFromLower | calculate_median_using_heap.js:264-274 | moving the lower root into the upper half keeps the contents, the orientations and the partition, and shifts one element across |
| HeapCollector.ShiftFromUpper | calculate_median_using_heap.js:264-274 | the mirror transfer from the upper half to the lower half |
| HeapCollector.TransferDownPartition | calculate_median_using_heap.js:272-274 | the largest lower value moved up is still at most every upper value |
| HeapCollector.TransferUpPartition | calculate_median_using_heap.js:272-274 | the smallest upper value moved down is still at least every lower value |
| HeapCollector.Balance | calculate_median_using_heap.js:256-275 | balanceTwoHeaps leaves the collector unchanged when the sizes differ by at most one, and otherwise turns a difference of two into at most one, keeping the contents and the partition |
| HeapCollector.PushValue | calculate_median_using_heap.js:218-234 | pushValue appends the value to the responses and preserves the whole collector invariant |
| HeapCollector.PushAll | calculate_median_using_heap.js:218-234 | any sequence of pushes preserves the invariant |
| HeapCollector.GetMedian | calculate_median_using_heap.js:236-254 | the median is NaN exactly when both halves are empty |
| HeapCollector.GetAverage | calculate_median_using_heap.js:277-283 | the average is NaN exactly on no responses; otherwise average times count is the total |
| HeapCollector.SortedMaxHeap | calculate_median_using_heap.js:248-252 | the root of a max-heap is the last element of its sorted arrangement |
| HeapCollector.SortedMinHeap | calculate_median_using_heap.js:248-252 | the root of a min-heap is the first element of its sorted arrangement |
| HeapCollector.HalvesSort | calculate_median_using_heap.js:236-254 | sorted lower half followed by sorted upper half is the sorted arrangement of everything |
| HeapCollector.MiddleOfHalves | calculate_median_using_heap.js:236-254 | the middle of that arrangement is the mean of the roots when the sizes are equal, else the bigger half's root |
| HeapCollector.RootsAreMiddle | calculate_median_using_heap.js:236-254 | balanced, partitioned heaps have roots that give the textbook median of their union |
| HeapCollector.MedianIsSortedMedian | calculate_median_using_heap.js:236-254 | on a non-empty consistent collector getMedian is the sorted-order median of all pushed values |
| HeapCollector.CollectedStatistics | calculate_median_using_heap.js:433-460 | after pushing any non-empty sample, getMedian and getAverage equal the textbook median and mean |
| HeapCollector.OrderIndependence | calculate_median_using_heap.js:413-431 | two push orders of the same values give the same median and average |
| HeapCollector.AllEqual | calculate_median_using_heap.js:422-428 | n copies of one value give that value as median and average |
| SortedStats.Sort | calculate_median_using_heap.js:440-442 | the reference sort returns a sorted permutation of its input |
| SortedStats.SortedUnique | calculate_median_using_heap.js:440-442 | two sorted permutations of one sample are equal |
| SortedStats.SortedMedian | calculate_median_using_heap.js:440-442 | the textbook median is the middle of every sorted arrangement of the sample |
| SortedStats.SortedMedianPermutation | calculate_median_using_heap.js:440-442 | the textbook median does not depend on the order of the sample |
| SortedStats.MeanBounds | calculate_median_using_heap.js:454-456 | the mean of values in [lo, hi] lies in [lo, hi] |
| SortedStats.TotalPermutation | calculate_median_using_heap.js:278-281 | the running total does not depend on the order of the values |
| HeapExamples.LastClimbsToRoot | calculate_median_using_heap.js:108-126 | a last item that no parent on its path strictly precedes climbs to the root, shifting that path down |
| HeapExamples.RootSinksRightThenLeft | calculate_median_using_heap.js:129-150 | a root sinks along the strictly preferred right child, then the only child |
| HeapExamples.RootSinksLeftTwice | calculate_median_using_heap.js:187-207 | a root sinks twice along the left child when the right child is not strictly preferred |
| HeapExamples.MinMoveUpExample | calculate_median_using_heap.js:350-356 | min-heap [2,3,4,5,6,7,1] sifts up to [1,3,2,5,6,7,4] |
| HeapExamples.MinMoveDownExample | calculate_median_using_heap.js:357-363 | min-heap [7,6,5,4,3,2] sifts down to [5,6,2,4,3,7] |
| HeapExamples.MinAddExample | calculate_median_using_heap.js:364-370 | adding 1 to min-heap [2,3,4,5,6,7] gives [1,3,2,5,6,7,4] |
| HeapExamples.MinExtractExample | calculate_median_using_heap.js:371-378 | extracting from [8,6,5,4,3,2,7] returns 8 and leaves [5,6,2,4,3,7] |
| HeapExamples.MaxMoveUpExample | calculate_median_using_heap.js:382-388 | max-heap [2,3,4,5,6,7] sifts up to [7,3,2,5,6,4] |
| HeapExamples.MaxMoveDownExample | calculate_median_using_heap.js:389-395 | max-heap [1,6,5,4,3,2] sifts down to [6,4,5,1,3,2] |
| HeapExamples.MaxAddExample | calculate_median_using_heap.js:396-402 | adding 8 to max-heap [2,3,4,5,6,7] gives [8,3,2,5,6,7,4] |
| HeapExamples.MaxExtractExample | calculate_median_using_heap.js:403-410 | extracting from [8,6,5,4,3,2,7] returns 8 and leaves [7,6,5,4,3,2] |
| HeapExamples.AscendingScenario | calculate_median_using_heap.js:236-283 | an illustrative run, not one of the source's datasets: pushing 1..6 gives median 3.5 and average 3.5 |
| HeapExamples.RepeatedScenario | calculate_median_using_heap.js:236-283 | an illustrative run with repeats, not one of the source's datasets: pushing 5,3,3,3,3 gives median 3 and average 3.4 |
| Histogram.GetBins | calculate_median_using_histogram.js:65-69 | getBins(min, max) is min..max: max-min+1 bins with bins[i] = min+i |
| Histogram.FindBinIdxFrom | calculate_median_using_histogram.js:103-107 | the scan stops at the first edge strictly above the value and answers one slot before it |
| Histogram.FindBinIdx | calculate_median_using_histogram.js:102-108 | findBinIdx is one before the first edge above v, or undefined when every edge is at most v |
| Histogram.FindBinIdxOfBins | calculate_median_using_histogram.js:102-108 | on bins lo..hi: v < lo gives -1, lo <= v < hi gives v-lo, v >= hi (hi itself included) gives undefined |
| Histogram.Increment | calculate_median_using_histogram.js:118-121 | `freqArr[binIdx] += 1` raises exactly the named bin and ignores -1 and undefined |
| Histogram.Tally | calculate_median_using_histogram.js:111-123 | every bin j ends with the number of values assigned index j |
| Histogram.CalculateFrequencies | calculate_median_using_histogram.js:111-123 | one non-negative count per bin |
| Histogram.FrequenciesOfBins | calculate_median_using_histogram.js:111-123 | bin j counts the copies of lo+j among the values when lo+j < hi, and stays 0 for the top bin |
| Histogram.FrequenciesTotal | calculate_median_using_histogram.js:111-123 | the counts add up to the number of values in [lo, hi) |
| Histogram.FrequenciesOrderIndependent | calculate_median_using_histogram.js:111-123 | the frequencies do not depend on the order of the values |
| Histogram.RunningTotal | calculate_median_using_histogram.js:127-128 | the map with accumulator y yields y plus the prefix sums |
| Histogram.Cumulative | calculate_median_using_histogram.js:126-130 | calculateCumulative has cum[i] = freq[0] + ... + freq[i] |
| Histogram.CumulativeShape | calculate_median_using_histogram.js:126-130 | over non-negative counts the running total is non-decreasing and ends at the total count |
| Histogram.FindMedianIdxFrom | calculate_median_using_histogram.js:93-98 | the scan returns the first index whose running total reaches the rank |
| Histogram.FindMedianIdx | calculate_median_using_histogram.js:92-99 | findMedianIdx is the least i with k <= cum[i], or undefined when the rank is never reached |
| Histogram.CumTally | calculate_median_using_histogram.js:54-57 | the running total at bin i is the number of counted values at or below lo+i |
| Histogram.BinOfRank | calculate_median_using_histogram.js:92-99 | for 1 <= k <= n the bin found for rank k is the k-th smallest counted value |
| Histogram.MedianOfArrangement | calculate_median_using_histogram.js:72-88 | getMedian is the middle of the sorted counted values (mean of ranks n/2 and n/2+1 when n is even), or undefined when nothing was counted |
| Histogram.MedianFromCounts | calculate_median_using_histogram.js:72-88 | from counts that describe a sample, getMedian is that sample's textbook median |
| Histogram.CumulativeCounts | calculate_median_using_histogram.js:55-57 | bins, frequencies and running total built from the values describe the counted values |
| Histogram.GetMedian | calculate_median_using_histogram.js:72-88 | getMedian is undefined without running totals, and otherwise a bin or the mean of two bins, the lower first; its value on counts of a sample is stated by Histogram.MedianFromCounts |
| Histogram.Calculate | calculate_median_using_histogram.js:54-62 | calculate is the textbook median of the values in [min, max), or NaN or undefined when there are none or min > max |
| Histogram.RoutedCounts | calculate_median_using_histogram.js:118-121 | index j is assigned once per copy of lo+j among counted values and never otherwise |
| Histogram.TopValueDropped | calculate_median_using_histogram.js:102-108 | as written: a sample [max] gives NaN, not max; and [min, max] gives min, not their mean |
| Histogram.FindBinIdxCorrected | calculate_median_using_histogram.js:102-108 | corrected lookup: agrees with findBinIdx wherever that finds a bin, and a value equal to the last (largest) edge falls in the last bin |
| Histogram.FindBinIdxCorrectedOfBins | calculate_median_using_histogram.js:102-108 | corrected: every v in [lo, hi] lands in bin v-lo |
| Histogram.CalculateCorrected | calculate_median_using_histogram.js:54-62 | corrected: calculate is the textbook median of the values in [min, max], or NaN or undefined when there are none or min > max |
| Histogram.CalculateCorrectedInDomain | calculate_median_using_histogram.js:54-62 | corrected: a non-empty sample within [min, max] gets exactly its textbook median |
| Histogram.TopValueKept | calculate_median_using_histogram.js:102-108 | corrected: [max] gives max and [min, max] gives their mean |
| HistogramCollector.NewCollector | calculate_median_using_histogram.js:19-22 | a new collector holds no responses, and its median and average are both NaN |
| HistogramCollector.PushValue | calculate_median_using_histogram.js:24-26 | after a push the average is the mean of every response so far, the new one included, and the median the textbook median of those in [1, 19000) |
| HistogramCollector.PushAll | calculate_median_using_histogram.js:24-26 | pushes append in order |
| HistogramCollector.GetMedian | calculate_median_using_histogram.js:28-36 | getMedian is the textbook median of the responses in [1, 19000), or NaN when there are none |
| HistogramCollector.MedianBelowTimeout | calculate_median_using_histogram.js:28-36 | responses all in [1, 19000) get exactly their textbook median |
| HistogramCollector.TimeoutResponseDropped | calculate_median_using_histogram.js:28-36 | as written: [19000] gives NaN instead of 19000 and [1, 19000] gives 1 instead of 9500.5 |
| HistogramCollector.GetMedianCorrected | calculate_median_using_histogram.js:28-36 | corrected: getMedian is the textbook median of the responses in [1, 19000], or NaN when there are none |
| HistogramCollector.MedianCorrectedInDomain | calculate_median_using_histogram.js:28-36 | corrected: responses all in [1, 19000] get exactly their textbook median |
| HistogramCollector.TimeoutResponseKept | calculate_median_using_histogram.js:28-36 | corrected: [19000] gives 19000 and [1, 19000] gives 9500.5 |
| HistogramCollector.GetAverage | calculate_median_using_histogram.js:38-44 | the average is NaN exactly on no responses; otherwise average times count is the sum |
| HistogramCollector.AverageIsMean | calculate_median_using_histogram.js:38-44 | the average is the mean of all pushed values, the out-of-domain ones included |
| HistogramCollector.AverageBounds | calculate_median_using_histogram.js:38-44 | responses within [lo, hi] have an average within [lo, hi] |
| HistogramCollector.OrderIndependence | calculate_median_using_histogram.js:155-162 | two push orders of the same responses give the same median and average |
| HistogramCollector.AllEqual | calculate_median_using_histogram.js:148-152 | n copies of a response below the timeout give it as median and average |

## Left out

- I/O, the mocha/chai test runner and `mocha.run()`: they are test plumbing, not
  behaviour. The concrete heap test arrays are proved instances in
  `HeapExamples`.
- The `math.median`/`math.mean` oracle is replaced by the reference
  definitions `SortedStats.SortedMedian` and `SortedStats.Mean`.
- `Math.random`/`getRandomInt` dataset generation is left out: it is
  nondeterministic. The properties are proved for every sample.
- IEEE-754 arithmetic in `/ 2`, `parseFloat` and the running sum is left out.
  Arithmetic is exact (`real`), so rounding and overflow of the total are
  not modelled.
- Fractional values in the histogram collector are left out: responses are
  `int`. `parseInt` of the integer bin edges is the identity.
- Non-number heap contents are left out. `doesLeftChildExist` tests
  `heapArr[i] != undefined`; for arrays of numbers that means "slot inside
  the array", which is how the model states it.
- The value getters `getLeftChild`, `getRightChild` and `getParent`
  (lines 59-72) have no member of their own. In the model they are plain
  sequence reads at `LeftChild(i)`, `RightChild(i)` and `Parent(c)`, always
  guarded by the matching existence check.
- NaN and undefined results are `None`. The model handles the empty
  collector and the missing bin without preconditions:
  - `getMedian` on an empty heap collector;
  - `getAverage` on no responses;
  - a rank that the running total never reaches. This is the scan that
    overruns to `cumulativeArr[length]` at line 93.
- The adds to the non-index properties `freqArr[-1]` and
  `freqArr["undefined"]` are not tracked. They never affect a bin, and
  nothing reads them back.
- `midVal` and `medianIdx` in `calculate` (lines 58-59) are computed and
  never used. The model leaves them out; they change nothing.
- Memory growth of the response array, throughput and concurrency are left
  out. The model is sequential.
- HeapCollector.GetMedian: its contract only says when the result is NaN.
  The value itself is stated by `HeapCollector.MedianIsSortedMedian`, which
  needs the collector invariant.
- Histogram.GetMedian: its contract only says that the result is a bin or
  the mean of two bins. Which bins, for running totals that count a sample,
  is stated by `Histogram.MedianFromCounts`.
- Histogram.CalculateFrequencies: its contract only gives the length and
  non-negativity. The contents are stated by `Histogram.FrequenciesOfBins`
  and `Histogram.FrequenciesTotal`.

Behaviour of the code that the model keeps as it is:

- the code raises no out-of-domain error: values outside the domain are
  dropped silently;
- an empty collector gives NaN, not an error;
- `getAverage` re-sums the whole response array instead of keeping a
  running sum;
- sifts swap equal values, because the stop tests are strict.

## Findings

| source | as written | input that shows it | evidently intended | confidence | as-written member | corrected member |
|---|---|---|---|---|---|---|
| calculate_median_using_histogram.js:102-108 | `findBinIdx` answers `i-1` for the first edge with `value < edge`, so the value equal to the last edge (`maxVal`, the 19000 ms timeout) finds no edge and is never counted; the top bin stays 0 | `pushValue(19000)` then `getMedian()` gives NaN; pushing 1 and 19000 gives 1 | every value of `[minVal, maxVal]` counted in its own bin, so the results are 19000 and 9500.5 | not executed | Histogram.TopValueDropped | Histogram.TopValueKept |

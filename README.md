# cxx-histogram in Dafny

A model of the luminance-histogram benchmark in `src/main.cxx` and `src/bitmap.cxx`.
The benchmark builds a synthetic bitmap in which pixel i is the grey level `i % 255`.
It then fills a global array of 256 counters in four ways: sequentially, and in parallel with
a per-bucket mutex, with an atomic fetch-and-add, or inside a transactional-memory block (`__transaction_atomic`).
In the parallel variants, the pixel indices `[0, N)` are split into one block per worker. Each
worker counts its block into a private 256-entry tally (`calculate_updates`) and then adds the
non-zero entries of that tally to the shared counters.

The model keeps the sequential arithmetic of all of this:

- `Bitmaps`: the `bitmap` class, with its fill loop, `size()` and `pixels()`.
- `Classifier`: `luminance` and the bucket index `luminance / kBorder`. The weights are
  computed exactly, as reals.
- `Workers`: `get_num_threads` (`NumThreads`), and the blocks of `histogram_parallel`
  (`Blocks`) with their partition lemmas.
- `Counting`: the specification of a histogram. `Count` and `Tally` give the count per bucket,
  `Merged` and `MergeAll` the effect of the updaters, and `Scheduled` the order in which the
  worker tasks merge. The lemmas show that the merge order does not matter. The main lemma,
  `ParallelMatchesSequential`, shows that merging the tallies of every block, in any order,
  gives exactly the sequential histogram, and that its total is N.
- `Histogram`: the global histogram, as the class `HistogramStore` over an `array<int>`.
  - `Reset` is the loop in `run_experiment`.
  - `Sequential` is `histogram_sequential`.
  - `Merge` is `histogram_mutex`, `histogram_atomic` and `histogram_transactional`, chosen by an
    `Algorithm` value. It replaces the function-pointer table.
  - `CalculateUpdates` is `calculate_updates`, and `PartitionBlocks` is the block loop.
  - `Parallel` is `histogram_parallel`.
  - `RunExperiment` is `run_experiment`. It is proved to leave the histogram of the whole bitmap
    for every `Algorithm`.

Threads are not modelled. `Parallel` takes a parameter `order`, a permutation of the block
indices, and merges the blocks one after another in that order. Because every schedule gives
the same result, the result does not depend on how the threads interleave their merges.

Two points about the code:

- For an empty bitmap, `get_num_threads` returns 0 (src/main.cxx:76-77). Line 129 then divides
  by zero and line 131 wraps `num_threads - 1`. So `Parallel` requires at least one pixel, and
  so does `RunExperiment` for every algorithm except `Sequential`. `NumThreads` states that its
  result is 0 exactly when the bitmap is empty.
- The program only times the runs and never compares the histograms. Here their agreement is a
  theorem: the postcondition of `RunExperiment` does not depend on the algorithm.

## Model

| member | source | states |
|---|---|---|
| `Bitmaps.Bitmap.constructor` | src/bitmap.cxx:3-14 | the buffer is fresh and holds exactly `size` pixels; pixel i has red = green = blue = i % 255, so every channel is at most 254 |
| `Bitmaps.Bitmap.Size` | src/bitmap.cxx:21 | returns the size the bitmap was built with |
| `Bitmaps.Bitmap.Pixels` | src/bitmap.cxx:23 | returns the bitmap's own buffer, not a copy |
| `Classifier.Luminance` | src/main.cxx:30-38 | for any three 8-bit channels the weighted luminance lies in [0, 255] |
| `Classifier.Bucket` | src/main.cxx:26-38 | the cast `static_cast<int>(luminance(p) / kBorder)` of lines 68 and 84: with kBorder = 256 / 256 the bucket index of every pixel lies in [0, 256), so `histogram[bucket]` and `updates[bucket]` are in bounds |
| `Workers.NumThreads` | src/main.cxx:73-78 | the worker count is at most the request (2 for a request of 0) and at most ceil(N / 200); it equals one of the two; it is 0 exactly when N = 0 |
| `Workers.Blocks` | src/main.cxx:128-148 | W contiguous blocks from 0 to N; the first W - 1 hold N / W pixels each and the last holds N / W + N % W |
| `Workers.ChainOrdered` | src/main.cxx:135-147 | in a chain of blocks each ending where the next starts, an earlier block ends no later than a later one starts |
| `Workers.BlocksDisjoint` | src/main.cxx:135-148 | no index lies in two different blocks of a chain |
| `Workers.BlocksCover` | src/main.cxx:135-148 | every index in [lo, hi) lies in some block of a contiguous chain from lo to hi |
| `Workers.BlocksPartition` | src/main.cxx:128-148 | each pixel index below N lies in exactly one block of `Blocks(N, W)` |
| `Histogram.PartitionBlocks` | src/main.cxx:129-148 | advancing `block_start` by N / W for W - 1 blocks, then closing with [block_start, N), produces exactly `Blocks(N, W)` |
| `Histogram.CalculateUpdates` | src/main.cxx:80-88 | entry k is the number of indices i in [start, end) whose pixel falls into bucket k; equals `Tally` of that slice; all zeros for an empty range; entries sum to end - start |
| `Counting.CountIsCardinality` | src/main.cxx:83-86 | the recursive count of a slice equals the size of the set of indices whose pixel is in bucket k |
| `Counting.CountAppend` | src/main.cxx:83-86 | the count of a concatenation is the sum of the counts of its parts |
| `Counting.TallySnoc` | src/main.cxx:67-69 | classifying one more pixel adds one to its bucket and leaves every other bucket alone |
| `Counting.TallyAppend` | src/main.cxx:80-88 | the tally of two adjacent ranges is the merge of their tallies |
| `Counting.TotalTally` | src/main.cxx:65-71 | every pixel is counted exactly once: the buckets of the tally sum to the number of pixels |
| `Counting.MergeAllAt` | src/main.cxx:90-118 | after a sequence of updater calls, bucket k holds its start value plus the sum of the k-th entries of all updates |
| `Counting.SumAtPermutation` | src/main.cxx:136-151 | the per-bucket sum of a set of updates is the same in every order |
| `Counting.MergeAllPermutation` | src/main.cxx:136-151 | merging the same updates in any order gives the same histogram |
| `Counting.ScheduledPermutes` | src/main.cxx:140-151 | an order that names every task exactly once rearranges the tasks' updates without losing or repeating any |
| `Counting.MergeScheduledSnoc` | src/main.cxx:141 | one more task in the schedule merges that task's updates last |
| `Counting.ChainSum` | src/main.cxx:135-148 | the tallies of a contiguous chain of blocks from lo to hi add up, bucket by bucket, to the count of [lo, hi) |
| `Counting.PartitionMerge` | src/main.cxx:126-152 | merging the tallies of any partition of [0, N) into a reset histogram, in any order, gives the histogram of the whole bitmap |
| `Counting.ParallelMatchesSequential` | src/main.cxx:126-152 | for every worker count and every schedule, the parallel result from a reset histogram equals the sequential tally, and its total is N |
| `Histogram.HistogramStore.constructor` | src/main.cxx:40-45 | the global histogram has 256 counters, all zero at start |
| `Histogram.HistogramStore.Reset` | src/main.cxx:179-181 | every counter is zero afterwards |
| `Histogram.HistogramStore.Sequential` | src/main.cxx:65-71 | the counters grow by exactly the tally of the whole bitmap |
| `Histogram.HistogramStore.Merge` | src/main.cxx:90-118 | for each of the three updaters, counter i grows by `updates[i]`; counters with a zero update are unchanged |
| `Histogram.HistogramStore.Parallel` | src/main.cxx:126-152 | the counters grow by the tallies of the blocks `Blocks(N, W)`, merged in the given order of tasks |
| `Histogram.HistogramStore.RunExperiment` | src/main.cxx:177-197 | for every algorithm, the histogram afterwards is the tally of the whole bitmap, and its total is the bitmap size |

## Left out

- Threads, `std::packaged_task`, futures and `join_threads` (src/main.cxx:131-151). Blocks are
  merged one after another, in an order given as a parameter.
- The mutex inside each `Bucket`, `std::lock_guard`, `__sync_fetch_and_add` and
  `__transaction_atomic` (src/main.cxx:41, 94, 104, 113). Only their effect of adding to one
  counter is kept.
- Histogram.HistogramStore.Merge: does not model the exclusion that each updater places around
  one addition. Concurrent merges are modelled as whole-block merges in some order; the
  per-bucket interleavings of the real program give the same sums because addition commutes.
- Classifier.Bucket: the luminance is computed on exact reals, not IEEE doubles. With exact
  reals a grey pixel (v, v, v) has luminance exactly v and lands in bucket v. The program's
  doubles can round that sum just below v (for v = 5 it is 4.999999999999999), and
  `static_cast<int>` then gives bucket v - 1. So `Tally`, and the histogram that
  `RunExperiment` promises, can differ from the program's output in those buckets, and facts
  about particular bucket values do not carry over to the program. Every proof about counting, blocks and the histogram uses only
  the fact that `Bucket` lands in [0, 256). They therefore hold for any classifier into that
  range, the program's double-precision one included. Truncation toward zero equals the floor
  because the luminance is never negative.
- Integer widths: the counters are C `int` and the indices `size_t`. The model uses unbounded
  integers, so it does not capture counter overflow past 2^31 - 1 pixels in one bucket or
  wrap-around of `b.size() + min_per_thread - 1`.
- The timer `hpctimer_wtime` and the elapsed time that `run_experiment` returns: timing is not
  functional, and hpctimer.h is not part of this model.
- `main`, Boost program options, `print_histogram` and `print_info` (src/main.cxx:47-53,
  154-175, 199-236): I/O and configuration.
- `EnumClassHash` and the `unordered_map` dispatch table (src/main.cxx:17-24, 120-124): replaced
  by a match on `Algorithm`.
- `bitmap::~bitmap` and the deleted copy operations in src/bitmap.h: memory management only.
- pixel.h is not part of this model. A pixel is assumed to have three unsigned 8-bit channels.
- The unused thread-count parameter of `histogram_sequential`.

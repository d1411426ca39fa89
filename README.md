# Monte Carlo minimisation: the fork-join minimum reduction

This project models the parallel reduction at the core of `MonteCarloMinimizationParallel`, as a
verified Dafny program. The reduction is a `RecursiveTask<Integer>` over the half-open range
`[start, end)` of an array of `Search` objects:

- A range of at most `THRESHOLD` (100) searches is run sequentially. Each search's
  `find_valleys()` is called, and the value becomes the new minimum when the search is not
  stopped and the value is below the running minimum. The running minimum starts at
  `Integer.MAX_VALUE`.
- A longer range is split at `mid = start + (end - start) / 2`. The right half is computed
  inline, the left half is forked and joined, and the two results are combined with
  `Math.min`.
- The program runs one such task over the whole array of searches through a `ForkJoinPool`.

The model has two modules:

- `Reduction` (`reduction.dfy`) holds the value level.
  - Java's `int` is the newtype `int32`, and the sentinel is `MAX_VALUE`.
  - `Math.min` is `Min`, and the midpoint is `Midpoint`.
  - The sequential specification is `SeqMin`. It folds the reports `Outcome(value, stopped)` of
    `rs[lo..hi]` exactly as the leaf loop does.
  - `IsLeastReported` is an independent, non-recursive statement of what that fold promises.
  - The split trees (`SplitTree`, `Partitions`, `Reduce`, `TaskTree`) describe the shape of the
    task recursion for an arbitrary threshold.
- `MonteCarloMini` (`parallel.dfy`) holds the objects.
  - `Search` is an abstraction of the search class. It has a fixed reported height `valley` and
    a fixed flag `redundant`, a mutable `stopped` flag, and a ghost counter `calls` of how often
    `find_valleys()` ran.
  - The task class `MonteCarloMinimizationParallel` has its constant fields `start`, `end` and
    `searches`.
  - `Compute` is `compute()`. Its leaf loop is the method `ComputeSequentially`.
  - `Minimize` is the top-level `invoke`.

`Compute` is proved against `SeqMin`. It returns `SeqMin` of the searches' reports over its
range. It calls `find_valleys()` exactly once on every search of the range, which then stands
stopped exactly when its report says so. It leaves every search outside the range untouched.
The properties of `SeqMin` are lemmas: split additivity, the characterisation by
`IsLeastReported`, the sentinel for an all-stopped range, and the irrelevance of stopped
searches' values. Independence from the threshold is stated about `TaskTree`.

Some behaviours are parameters of the model rather than parts of it:

- What a search reports is fixed per search, in `Search.valley` and `Search.redundant`. How its
  walk over the terrain produces that result is not modelled.
- `fork()`/`join()` become two sequential recursive calls: the right half, then the left.

Two facts about the program fix the model's arithmetic:

- Heights and the result are Java `int`: `find_valleys()` returns an `int`
  (MonteCarloMinimizationParallel.java:42).
- The left half `[start, mid)` gets `floor(n/2)` searches and the right half gets `ceil(n/2)`
  (line 50). `Midpoint` states this.

`TaskTree` and `ThresholdIrrelevant` require a threshold of at least 1. With a threshold of 0
or less, a one-element range has `mid == start`, so `compute()` would hand the same range
`[mid, end) == [start, end)` to its right sub-task and recurse forever. The program's constant
is 100, so this cannot happen there.

## Model

| member | source | states |
|---|---|---|
| `Reduction.SeqMin` | MonteCarloMinimizationParallel.java:40-47 | the leaf loop's fold, from the right as the loop runs: start at `Integer.MAX_VALUE` and take a search's value when it is not stopped and below the running minimum; the result is at most every non-stopped value in the range |
| `Reduction.Reduce` | MonteCarloMinimizationParallel.java:55-59 | a task tree's result: leaves fold sequentially, splits combine their halves with `Math.min`; the result is at most every non-stopped value in the range |
| `Reduction.Min` | MonteCarloMinimizationParallel.java:59 | `Math.min(a, b)` is at most both arguments and equal to one of them |
| `Reduction.SeqMinIsLeast` | MonteCarloMinimizationParallel.java:40-47 | the sequential leaf result is at most the value of every non-stopped search in the range, and is either `Integer.MAX_VALUE` or the value of some non-stopped search in the range |
| `Reduction.SeqMinCharacterized` | MonteCarloMinimizationParallel.java:40-47 | a value has the property above if and only if it equals the leaf loop's result, so the property determines that result |
| `Reduction.SeqMinAllStopped` | MonteCarloMinimizationParallel.java:40-47 | an empty range, or a range whose every search is stopped, yields `Integer.MAX_VALUE` |
| `Reduction.SeqMinIgnoresStopped` | MonteCarloMinimizationParallel.java:42-45 | reports that agree on the stopped flags and on the non-stopped values give the same minimum, so a stopped search's value never influences the result |
| `Reduction.SeqMinSplit` | MonteCarloMinimizationParallel.java:50-59 | for any cut `lo <= mid <= hi`, the minimum of `[lo, hi)` is `Math.min` of the minima of `[lo, mid)` and `[mid, hi)` |
| `Reduction.Midpoint` | MonteCarloMinimizationParallel.java:50 | for `0 <= start <= end`, `mid` does not overflow and stays in `[start, end]`; the left half is never larger than the right and smaller by at most one; a span of two or more gives `start < mid < end`, two non-empty, strictly smaller halves |
| `Reduction.ReduceAnyTree` | MonteCarloMinimizationParallel.java:50-59 | any nesting of splits into disjoint, covering, non-empty halves combined with `Math.min` yields the sequential minimum of the whole range |
| `Reduction.TaskTree` | MonteCarloMinimizationParallel.java:38-52 | the recursion `compute()` performs for a threshold of at least 1 always cuts each range into disjoint, non-empty halves that cover it, and it terminates; a threshold of at least 1 is needed, because with 0 a one-element range splits into itself |
| `Reduction.ThresholdIrrelevant` | MonteCarloMinimizationParallel.java:9-59 | for every threshold of at least 1, the task recursion's result equals the sequential minimum, so it does not depend on `THRESHOLD` |
| `MonteCarloMini.Search.constructor` | MonteCarloMinimizationParallel.java:98 | a new search is not stopped and has not yet been run |
| `MonteCarloMini.Search.FindValleys` | MonteCarloMinimizationParallel.java:42-43 | a run of `find_valleys()` returns the search's height and leaves `isStopped()` reporting its redundancy flag; the run is counted |
| `MonteCarloMini.Search.IsStopped` | MonteCarloMinimizationParallel.java:43 | `isStopped()` reports the search's stopped flag; once the search has run, that flag is its redundancy flag, an invariant the constructor and `FindValleys` keep |
| `MonteCarloMini.MonteCarloMinimizationParallel.constructor` | MonteCarloMinimizationParallel.java:29-34 | the task records its range and the shared array of searches; a range inside the array of distinct searches gives a valid task |
| `MonteCarloMini.MonteCarloMinimizationParallel.Compute` | MonteCarloMinimizationParallel.java:37-61 | the result equals the sequential minimum over the non-stopped searches of `[start, end)`, or `Integer.MAX_VALUE`; it also equals the result of the task tree built with `THRESHOLD`; `find_valleys()` ran exactly once on each search in the range and on none outside it |
| `MonteCarloMini.MonteCarloMinimizationParallel.ComputeSequentially` | MonteCarloMinimizationParallel.java:38-47 | the leaf loop returns the sequential minimum of its range, running each search of the range once and no other |
| `MonteCarloMini.Minimize` | MonteCarloMinimizationParallel.java:102-103 | the global result is the minimum over all non-stopped searches of the array, or `Integer.MAX_VALUE`; it is at most every such value and attained by one of them unless it is the sentinel; every search ran exactly once |

## Left out

- `ForkJoinPool`, `fork()`, `join()` and thread interleaving are concurrency. The two halves run one after the other: first the right half, then the forked left half.
- `Search.find_valleys()`, `Search.isStopped()` and `TerrainArea` are defined in other classes of the program. Each search reports a fixed height and a fixed stopped flag. How searches influence one another through the shared terrain, and the terrain's visited and evaluated counters, are not modelled.
- The task's `terrain` field is only handed on to the sub-tasks, so the model has no such field.
- The task class's `DEBUG` flag is unused by `compute()`. It is not modelled.
- The `Search` id and starting cell (line 98) are not modelled, because the reduction never reads them.
- Argument parsing and `System.exit` (lines 76-87) are input handling. They are not modelled.
- `tick`/`tock` and `System.currentTimeMillis` (lines 16-26, 89, 105) read the clock. They are not modelled.
- The random starting points drawn with `java.util.Random` (lines 74, 97-99) are not modelled. The array of searches is a parameter of `Minimize`.
- `num_searches = (int)(rows*columns*searches_density)` and the percentages (lines 93, 116, 118) are floating point. They are not modelled.
- All `printf`/`println` output (lines 108-121) is not modelled.
- `Compute` requires distinct searches and `0 <= start <= end <= searches.length`. The driver creates a fresh object for every array slot and only starts a task over `[0, num_searches)`.
- `Compute` keeps the leaf loop in a separate method, `ComputeSequentially`. The source writes the loop inline.

# Partitioned matrix multiplication, modelled in Dafny

The modelled program multiplies a 50 × 80 matrix A by an 80 × 50 matrix B in
two ways. `multiply_single` is a sequential triple loop. `run_threaded`
starts one thread per rectangle ("region") of the 50 × 50 output C. The
region lists come from three generators:

- `indices_cell`: one region per cell.
- `indices_row`: one region per row.
- `indices_block`: a 5 × 2 grid built with `np.array_split`.

Each thread runs `worker`. It writes `A[rs:re, :] @ B[:, cs:ce]` into its own
region of C and never touches the rest. No lock guards these writes.

The model uses integer entries. The proofs are therefore about index
arithmetic and summation structure, not rounding. All dimensions are
parameters (`Matrices.Dims`). `Matrices.Benchmark` fixes them at the
program's 50, 80 and 50.

Modules:

- `Outcomes` (outcomes.dfy) and `Arith` (arith.dfy): the option and result
  types, and a few facts about multiplication and division.
- `Regions` (regions.dfy): intervals and regions, and the tiling invariant.
  The invariant requires that regions are in bounds, pairwise disjoint and
  together cover C. It is proved equivalent to "every cell lies in exactly
  one region". One-dimensional chains of intervals are defined here too.
- `Grids` (grid.dfy): the nested generator loop "for each row interval, for
  each column interval, yield a region". It includes the positions of its
  regions and the tiling lemma for chains.
- `ArraySplit` (array_split.dfy): the `np.array_split` sizing rule. The
  first `n % k` sections get `n / k + 1` elements and the rest get `n / k`.
  The cut points are the cumulative sums of the section sizes, with closed
  form `g * (n / k) + min(g, n % k)`.
- `Partition` (partition.dfy): the three generators and their shapes and
  tilings. When a group is empty, `rs[0]` or `cs[0]` in
  `indices_block` raises `IndexError` on it.
- `Matrices` (matrices.dfy): matrices, the dot product (summed in ascending
  index order), the product, and the benchmark dimensions.
- `Workers` (worker.dfy): the region worker, modelled as slicing, a block
  product and a slice assignment.
- `Schedule` (schedule.dfy): the thread fan-out, abstracted from what the
  workers compute. Each worker writes some value f(r, i, j) into its
  region, and the threads may finish in any order.
- `Threaded` (threaded.dfy): `run_threaded`, with the strategy lookup, the
  fold of workers, the worker count and the main correctness theorems.
- `Single` (single.dfy): `multiply_single` as an imperative loop over an
  `array2`, with loop invariants.

The main theorem, `Threaded.ThreadsComputeProduct`, covers every accepted
mode and every order in which the threads complete. The workers' writes
without locks, applied to the zero matrix in that order, yield the
product. `Threaded.AnyWorkerOrderComputesProduct` states the same for the
sequential fold of workers. `Single.MultiplySingle` computes the same
product.

Two facts support this theorem, and they are kept apart:

- The sequential fold itself only needs coverage, because every worker
  writes the true product entry.
- Disjointness is what makes the unsynchronised threads safe.
  `Threaded.StrategyTiles` shows that each cell is written by exactly one
  worker. `Schedule.ScheduleIndependent` shows that with disjoint regions,
  every completion order gives the same matrix whatever each worker
  computes. `Schedule.OverlapOrderMatters` shows that with overlapping
  regions this fails.

## Model

| member | source | states |
|---|---|---|
| `Partition.IndicesCell` | matrix_mul_threaded.py:30-34 | indices_cell yields one region per output cell, nRows·nCols in all. `Partition.IndicesCellShape` gives each region's position. |
| `Partition.IndicesRow` | matrix_mul_threaded.py:36-39 | indices_row yields one region per output row, nRows in all. `Partition.IndicesRowShape` gives each region. |
| `Partition.IndicesBlock` | matrix_mul_threaded.py:41-47 | When indices_block succeeds, it yields kRows·kCols regions, one per pair of groups. When a group is empty it yields `None`. |
| `Partition.GroupBounds` | matrix_mul_threaded.py:47 | `(g[0], g[-1] + 1)` fails, which is Python's `IndexError`, exactly when the group is empty. |
| `Partition.AllBoundsSome` | matrix_mul_threaded.py:45-47 | The bounds of all groups exist if and only if no group is empty. Group g then gets its own `(g[0], g[-1] + 1)`. |
| `Partition.RangeBounds` | matrix_mul_threaded.py:47 | A non-empty group range(lo, hi) has bounds (lo, hi). |
| `Partition.IndicesCellShape` | matrix_mul_threaded.py:30-34 | indices_cell yields exactly nRows·nCols regions. Cell (i, j) sits at row-major position i·nCols + j as (i, i+1, j, j+1). |
| `Partition.IndicesRowShape` | matrix_mul_threaded.py:36-39 | indices_row yields exactly nRows regions. Row i is the full-width region (i, i+1, 0, nCols). |
| `Partition.IndicesBlockDefined` | matrix_mul_threaded.py:41-47 | indices_block succeeds if and only if nRows ≥ kRows and nCols ≥ kCols. Otherwise some array_split group is empty, and `rs[0]` or `cs[0]` raises `IndexError` on it. |
| `Partition.BlockBounds` | matrix_mul_threaded.py:43-47 | When n ≥ k, each group's (g[0], g[-1]+1) is the half-open range between consecutive division points. |
| `Partition.IndicesBlockShape` | matrix_mul_threaded.py:41-47 | indices_block yields kRows·kCols regions with row groups outer. Groups (a, b) give the region between the a-th and b-th division points, at position a·kCols + b. |
| `Partition.IndicesCellTiles` | matrix_mul_threaded.py:30-34 | Cell regions are in bounds and pairwise disjoint, and they cover the output. |
| `Partition.IndicesRowTiles` | matrix_mul_threaded.py:36-39 | Row regions tile the output whenever it has a column. |
| `Partition.IndicesBlockTiles` | matrix_mul_threaded.py:41-47 | Block regions tile the output for every n ≥ k, not only 50/5 and 50/2. |
| `ArraySplit.Split` | matrix_mul_threaded.py:43-44 | `np.array_split(xs, k)` gives exactly k sections, the slices between consecutive division points. `ArraySplit.SplitSizes` gives their sizes and `ArraySplit.SplitConcat` gives back xs. |
| `ArraySplit.DivPoints` | matrix_mul_threaded.py:43-44 | The array_split cut points start at 0 and end at n. Each step adds one section size, and no point exceeds n. |
| `ArraySplit.DivPointsClosedForm` | matrix_mul_threaded.py:43-44 | Cut point g equals g·(n/k) + min(g, n mod k). |
| `ArraySplit.SplitSizes` | matrix_mul_threaded.py:43-44 | Section g has n/k + 1 elements when g < n mod k, and n/k otherwise. |
| `ArraySplit.SplitBalanced` | matrix_mul_threaded.py:43-44 | Section sizes never grow along the split, and any two differ by at most one. |
| `ArraySplit.SplitNonEmpty` | matrix_mul_threaded.py:43-44 | Every section is non-empty if and only if n ≥ k. |
| `ArraySplit.SplitConcat` | matrix_mul_threaded.py:43-44 | The sections, joined in order, give back the input. So they are contiguous and hold every index exactly once. |
| `Regions.TilesIffExactlyOnce` | matrix_mul_threaded.py:30-47 | In-bounds regions are pairwise disjoint and cover the output if and only if each cell lies in exactly one region. |
| `Matrices.Zeros` | matrix_mul_threaded.py:55 | `np.zeros((rows, cols))` is a rows × cols matrix whose every entry is 0. The same call appears at matrix_mul_single.py:26. |
| `Workers.Assign` | matrix_mul_threaded.py:51 | `C[rs:re, cs:ce] = block`: a cell inside the region takes `block[i - rs][j - cs]`, and every other cell keeps its value. |
| `Workers.Worker` | matrix_mul_threaded.py:49-51 | A region's cells get the dot product of A's row and B's column. Every other cell of C keeps its value. |
| `Schedule.WriteAll` | matrix_mul_threaded.py:61-65 | For pairwise-disjoint workers, a cell of region r ends with r's value and a cell outside every region keeps its value. |
| `Schedule.ScheduleIndependent` | matrix_mul_threaded.py:61-65 | With pairwise-disjoint regions, every completion order of the threads gives the same matrix, whatever the workers compute. |
| `Schedule.OverlapOrderMatters` | matrix_mul_threaded.py:49-51 | With overlapping regions the order can matter. For example, regions (0, 1, 0, 1) and (0, 1, 0, 2) on a 1 × 2 matrix give different results in the two orders. So disjointness is needed. |
| `Threaded.Strategy` | matrix_mul_threaded.py:57-59 | An unknown mode gives `UnknownMode`, the dictionary's `KeyError`. Cell and row mode always succeed. Block mode can fail only with `EmptyGroup`. |
| `Threaded.ApplyAll` | matrix_mul_threaded.py:61-65 | After all workers have run, a covered cell holds its product entry and an uncovered cell keeps its old value. |
| `Threaded.StrategyCovers` | matrix_mul_threaded.py:57-61 | Every region of a looked-up strategy is a slice of C, and together they cover every cell, for any dimensions. |
| `Threaded.StrategyTiles` | matrix_mul_threaded.py:30-47 | Every accepted mode tiles the output, so each cell is written by exactly one worker. |
| `Threaded.RunThreaded` | matrix_mul_threaded.py:53-67 | On success, C equals the product A·B and the worker count equals the number of regions. Failures are exactly the strategy's failures. |
| `Threaded.RunThreadedDefined` | matrix_mul_threaded.py:57-59 | The run succeeds if and only if the mode is cell, row or block (block also needs ≥ 5 rows and ≥ 2 columns). An unknown mode fails at the lookup. |
| `Threaded.RunThreadedWorkers` | matrix_mul_threaded.py:61-67 | The worker count is rows·cols for cell mode, rows for row mode and 5·2 for block mode. |
| `Threaded.ApplyAllOrderIndependent` | matrix_mul_threaded.py:61-65 | Running the same regions in any permuted order gives the same C. |
| `Threaded.WorkersScheduleIndependent` | matrix_mul_threaded.py:61-65 | On disjoint regions, the worker fold is an instance of the thread model, so every completion order gives the fold's result. |
| `Threaded.AnyWorkerOrderComputesProduct` | matrix_mul_threaded.py:53-67 | For every accepted mode, workers run in any order from the zero matrix produce A·B. |
| `Threaded.ThreadsComputeProduct` | matrix_mul_threaded.py:53-67 | For every accepted mode and every completion order of its threads, the unsynchronised region writes into the zero matrix produce A·B. |
| `Threaded.BenchmarkCellAndRow` | matrix_mul_threaded.py:30-39 | At 50 × 50, cell mode yields 2500 regions and row mode yields 50. |
| `Threaded.BenchmarkBlocks` | matrix_mul_threaded.py:41-47 | At 50 × 50, block mode yields 10 regions, row groups outer. Region (a, b) is rows [10a, 10a+10) by columns [25b, 25b+25). |
| `Threaded.BenchmarkTiles` | matrix_mul_threaded.py:30-47 | Each of the three modes tiles the 50 × 50 output. |
| `Threaded.BenchmarkWorkers` | matrix_mul_threaded.py:53-67 | At 50, 80, 50 the cell, row and block runs return A·B with 2500, 50 and 10 workers. |
| `Single.MultiplySingle` | matrix_mul_single.py:24-33 | Returns a rowsA × colsB array where every cell is Σₖ A[i][k]·B[k][j], summed with ascending k. The ghost write log shows each cell written exactly once, in row-major order. |
| `Single.CellDot` | matrix_mul_single.py:29-31 | The innermost loop leaves the accumulator equal to the cell's dot product Σₖ A[i][k]·B[k][j]. |
| `Single.RowMajorLog` | matrix_mul_single.py:27-32 | When the loops stand at cell (i, j), the cells written so far are sorted in row-major order and are exactly the cells before (i, j). |

`Single.MultiplySingle` has three loop invariants:

- The inner accumulator invariant (in `Single.CellDot`) is the sum of the
  first k terms, in ascending order.
- The middle-loop invariant says that cells before (i, j) in row-major order
  hold their dot products and every later cell is still zero. The write log
  is the full rows before i followed by row i's first j cells.
- The outer-loop invariant is the same statement at row granularity.

`Single.RowMajorLog` shows by induction that such a log is sorted in
row-major order and holds exactly the cells before (i, j).

## Left out

- `build_matrices` (both files) is left out. It is closed-form `sin`/`cos`
  floating-point initialisation. A and B are parameters of the model, so
  the spot values of A, B and C are not modelled.
- Floating-point rounding and bit-exact agreement between the two paths are
  not modelled. Entries are integers, so the order of summation does not
  matter.
  `Schedule` still shows that disjoint regions make the result independent
  of the thread schedule even when workers compute different values.
- Real threads (`threading.Thread`, `start`, `join`) are not modelled. The
  model uses a sequential fold (`Threaded.ApplyAll`, `Schedule.WriteAll`)
  plus lemmas over every completion order. Memory visibility at `join` is
  not modelled.
- The command line, argparse, `time.perf_counter` timing and CSV printing
  are I/O glue and are left out.
- NumPy internals beyond the `array_split` sizing rule are left out. Slice
  clamping of out-of-range bounds is excluded by `Workers.Worker`'s
  precondition; the generators never produce such bounds.
- The generators are lazy in the source. In block mode an empty group would
  raise only after the threads for earlier regions had started. The model
  reports the whole run as failed (`EmptyGroup`) without a partial C. At
  the program's own dimensions this case cannot arise
  (`Threaded.BenchmarkBlocks`).
- An unknown mode raises `KeyError` at the strategy dictionary lookup
  (matrix_mul_threaded.py:57-59), modelled as `UnknownMode`.
- `worker` uses NumPy `@` (matrix_mul_threaded.py:51), whose summation
  order is not visible. `Dot` sums in ascending k, which makes no
  difference over `int`.
- `Threaded.StrategyTiles` requires at least one column for row mode. With
  zero columns, `indices_row` yields empty regions (i, i+1, 0, 0), which
  break the non-empty region invariant. Coverage and the correctness of the
  product still hold there (`Threaded.StrategyCovers`, `Threaded.RunThreaded`).

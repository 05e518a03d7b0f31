# Lagged product-sum matrix generators

A model of the two generators of the `matrix` program. Given a sample sequence
`x` of length `n` and a count `c`, each generator returns the `(c + 1)`-square
matrix

    M[k][j] = sum over c <= i < n of x[i - k] * x[i - j]

- **Reference** (`UnoptimizedMatrixGenerator`) evaluates the formula cell by
  cell with a triple loop.
- **Optimized** (`OptimizedMatrixGenerator`) walks the matrix along
  diagonals. The row family starts at `(row, 0)` for `row = c .. 0`. The column
  family starts at `(0, col)` for `col = 1 .. c`. For each diagonal, at lag
  `pos`, it does three things:
  - It builds one products table `p[t] = x[t] * x[t + pos]`.
  - It sums a common range `[offset0, n - c)` once.
  - For each cell it adds a growing "low" end and a shrinking "high" end to
    that common sum.

Modules:

- `Matrices` — the matrix value type, a zero matrix and a single-cell store.
- `Sums` — range sums, which are what the summation loops compute.
- `Reference` — the defining formula and the reference generator.
- `Diagonal` — the arithmetic of one diagonal and its bounds analysis.
- `Sweep` — the order in which cells are written.
- `Costs` — counts of multiplications and additions.
- `Optimized` — the optimized generator as written.
- `ShortInput` — the defect on inputs with fewer than `2 * c` samples, and a corrected generator.
- `Generators` — the common interface.

Samples and entries are exact integers. The matrix is a value
(`seq<seq<int>>`): it is built fresh by each generator and returned. The
operation counts are ghost outputs of the methods.

The optimized generator is modelled as written, for non-negative `count` (see "## Left out"). Its equivalence with
the reference is proved under the condition the code actually needs,
`2 * c <= n`. The Javadoc of both classes presents the reference generator as
the yardstick the optimized one is compared against
(`UnoptimizedMatrixGenerator.java:4-8`, `OptimizedMatrixGenerator.java:3-8`),
and `App` never checks `n` against `c`. The code does not meet that for
`c <= n < 2 * c`, and the difference is recorded under Findings.
When `n < c` the source reads `products[n - c]` and throws an
array-index exception. The model returns `None` in that case.

## Model

| member | source | states |
|---|---|---|
| Matrices.Zeros | src/main/java/matrix/OptimizedMatrixGenerator.java:23 | the freshly allocated result is `(c+1)`-square and every entry starts at zero |
| Matrices.Store | src/main/java/matrix/OptimizedMatrixGenerator.java:150 | storing one cell sets that cell and leaves every other cell and every row length as it was |
| Sums.SpanSplit | src/main/java/matrix/OptimizedMatrixGenerator.java:119-148 | a range sum can be cut at any interior point into two range sums, which is how the common, low and high loops divide one window |
| Reference.LagSumSymmetric | src/main/java/matrix/UnoptimizedMatrixGenerator.java:31-34 | swapping the two lags leaves the sum unchanged, because the factors of every term commute |
| Reference.RefSymmetric | src/main/java/matrix/UnoptimizedMatrixGenerator.java:25-37 | the defined matrix is symmetric |
| Reference.SumTerms | src/main/java/matrix/UnoptimizedMatrixGenerator.java:29-34 | the inner loop yields the defining sum of cell `(k, j)` after `max(0, n - c)` multiply-adds |
| Reference.FillRow | src/main/java/matrix/UnoptimizedMatrixGenerator.java:27-37 | one pass of the middle loop gives every cell of row `k` its defining value and leaves the other rows alone |
| Reference.FillMatrix | src/main/java/matrix/UnoptimizedMatrixGenerator.java:21-41 | every cell gets its defining value, using `(c+1)^2 * max(0, n - c)` multiplications and as many additions |
| Reference.Generate | src/main/java/matrix/UnoptimizedMatrixGenerator.java:21-41 | the result is square, holds the defining values and is symmetric; all entries are zero when `n <= c`; when `n == c + 1` each entry is the single product `x[c-k] * x[c-j]` |
| Costs.RowFamilyMults | src/main/java/matrix/OptimizedMatrixGenerator.java:28-40 | the row family builds tables of `n - c .. n` entries, `(c+1)(2n-c)/2` multiplications in all |
| Costs.ColumnFamilyMults | src/main/java/matrix/OptimizedMatrixGenerator.java:42-53 | the column family builds tables of `n - 1 .. n - c` entries, `c(2n-c-1)/2` multiplications in all |
| Costs.OptimizedMultsClosedForm | src/main/java/matrix/OptimizedMatrixGenerator.java:21-56 | the `2c+1` diagonals together multiply `(2c+1)n - c(c+1)` times, which is linear in `n` |
| Costs.FewerMultiplications | src/main/java/matrix/OptimizedMatrixGenerator.java:58-69 | for every `n >= c` the reference does exactly `c^2 (n - c - 1)` more multiplications than the optimized generator, so for `n > c` it never does fewer; at `n == c` the reference sums nothing and the optimized generator does `c^2` more |
| Costs.BenchmarkCounts | src/main/java/matrix/OptimizedMatrixGenerator.java:65-67 | for 300 samples and count 4: 2680 multiplications and 2708 additions, against 7400 of each for the reference |
| Diagonal.Products | src/main/java/matrix/OptimizedMatrixGenerator.java:106-114 | in both families the table entry `t < n - pos` is the product of the samples at `t` and `t + pos`; the remaining entries stay zero |
| Diagonal.LagSumAsSpan | src/main/java/matrix/UnoptimizedMatrixGenerator.java:31-34 | shifting the summation index by `max(k, j)` turns a cell's defining sum into a range sum of the lag-`|k-j|` products table |
| Diagonal.WindowIsRefRow | src/main/java/matrix/OptimizedMatrixGenerator.java:91-97 | in the row family, step `s` of the diagonal at lag `pos` needs the table window `[c - pos - s, n - pos - s)`, which is the defining sum of cell `(pos + s, s)` |
| Diagonal.WindowIsRefColumn | src/main/java/matrix/OptimizedMatrixGenerator.java:98-104 | in the column family, the same window is the defining sum of cell `(s, pos + s)` |
| Diagonal.WindowIsRef | src/main/java/matrix/OptimizedMatrixGenerator.java:91-104 | for either family, the window of step `s` holds exactly the terms of the cell the step writes |
| Diagonal.Tiling | src/main/java/matrix/OptimizedMatrixGenerator.java:119-148 | when the common range is not inverted (`offset0 <= n - c`), the common, low and high ranges cover the cell's window once each, with no gap or overlap |
| Diagonal.CellMatchesReference | src/main/java/matrix/OptimizedMatrixGenerator.java:77-156 | under the same condition, every cell a diagonal writes gets its defining value |
| Diagonal.FamiliesAgree | src/main/java/matrix/OptimizedMatrixGenerator.java:91-114 | the row and column diagonals at the same lag build the same table, so their cells agree step for step |
| Diagonal.InBoundsIffEnoughSamples | src/main/java/matrix/OptimizedMatrixGenerator.java:109-148 | every array access of a whole generation stays inside its array if and only if `c <= n` |
| Sweep.DiagonalRunCount | src/main/java/matrix/OptimizedMatrixGenerator.java:134-155 | one walk writes each cell of its diagonal between its start and its length exactly once, and writes nothing else |
| Sweep.RowSweepCount | src/main/java/matrix/OptimizedMatrixGenerator.java:28-40 | the row loop writes each cell with `row - col >= lo` once, and no other cell |
| Sweep.ColumnSweepCount | src/main/java/matrix/OptimizedMatrixGenerator.java:42-53 | the column loop writes each cell with `1 <= col - row <= hi` once, and no other cell |
| Sweep.AllCellsExactlyOnce | src/main/java/matrix/OptimizedMatrixGenerator.java:21-56 | a generation writes every cell of the square exactly once, writes nothing outside it, and makes `(c+1)^2` writes |
| Sweep.SweepLength | src/main/java/matrix/OptimizedMatrixGenerator.java:21-56 | the two families together perform `(c+1)^2` writes |
| Sweep.MainDiagonalFromRowsOnly | src/main/java/matrix/OptimizedMatrixGenerator.java:42-53 | the column loop starts at column 1, so the main diagonal belongs to the row family alone |
| Optimized.FillProducts | src/main/java/matrix/OptimizedMatrixGenerator.java:109-114 | the product loop fills entry `t < n - pos` with the samples `pos` apart, using `max(0, n - pos)` multiplications |
| Optimized.SumCommon | src/main/java/matrix/OptimizedMatrixGenerator.java:119-124 | the common loop sums the table over `[offset, n - c)`, one addition per term, and nothing when the range is inverted |
| Optimized.SumCell | src/main/java/matrix/OptimizedMatrixGenerator.java:136-148 | a cell adds `low` entries from `offset` and `high = offset` entries from `n - c` to the common sum |
| Optimized.WalkDiagonal | src/main/java/matrix/OptimizedMatrixGenerator.java:132-155 | the do-while writes exactly the cells of its diagonal, in order; cell `s` holds the three pieces at step `s`; every other cell is unchanged |
| Optimized.CalculateDiagonalCells | src/main/java/matrix/OptimizedMatrixGenerator.java:77-156 | one call changes only the cells of its diagonal; it multiplies `max(0, n - pos)` times and adds once per common term plus `offset0` times per cell |
| Optimized.RowFamily | src/main/java/matrix/OptimizedMatrixGenerator.java:28-40 | the first loop fills every cell on or below the main diagonal and leaves the rest unchanged |
| Optimized.ColumnFamily | src/main/java/matrix/OptimizedMatrixGenerator.java:42-53 | the second loop fills every cell above the main diagonal and leaves the rest unchanged |
| Optimized.EntrySymmetric | src/main/java/matrix/OptimizedMatrixGenerator.java:21-56 | the optimized result is symmetric for every admissible `n`, because mirrored diagonals share their table |
| Optimized.EntryMatchesReference | src/main/java/matrix/OptimizedMatrixGenerator.java:21-56 | with `2c <= n` samples every optimized entry equals the reference entry |
| Optimized.Generate | src/main/java/matrix/OptimizedMatrixGenerator.java:21-56 | fails exactly when `n < c`, which is exactly when an index would leave an array; otherwise the result is square and symmetric, writes each cell exactly once, equals the reference when `2c <= n`, and uses the counted operations |
| Generators.Generate | src/main/java/matrix/MatrixGenerator.java:8-19 | each implementation returns a symmetric `(c+1)`-square matrix; the reference and the corrected generator always hold the defining values, and the optimized one holds them when `2c <= n`; only the optimized one fails, and only when `n < c` |
| ShortInput.ShortInputCounterexample | src/main/java/matrix/OptimizedMatrixGenerator.java:119-148 | for `x = [1, 1, 1]` and `c = 2`, the generator stores 2 in cell (0, 0), where the formula gives 1 |
| ShortInput.AsWrittenNeedsTwiceCount | src/main/java/matrix/OptimizedMatrixGenerator.java:119-148 | for every `c <= n < 2c`, on all-ones input cell (0, 0) holds `c` instead of `n - c`, so the bound `2c <= n` cannot be weakened |
| ShortInput.InvertedOverCounts | src/main/java/matrix/OptimizedMatrixGenerator.java:119-148 | when the common range is inverted the common sum is empty, and the low and high ranges still cover the whole window of the cell, so on non-negative products the stored value is never below the defining sum: the defect adds terms, it never drops any |
| ShortInput.CorrectionChangesOnlyInvertedDiagonals | src/main/java/matrix/OptimizedMatrixGenerator.java:119-148 | on every diagonal whose common range is not inverted, the corrected entry is the as-written entry, so the correction touches only the defective diagonals |
| ShortInput.CorrectedTiling | src/main/java/matrix/OptimizedMatrixGenerator.java:119-148 | with both end loops clamped to the cell's window, the three ranges tile the window for every table length |
| ShortInput.CorrectedCellMatchesReference | src/main/java/matrix/OptimizedMatrixGenerator.java:77-156 | every cell of the corrected diagonal has its defining value for every `n` |
| ShortInput.CorrectedEntryMatchesReference | src/main/java/matrix/OptimizedMatrixGenerator.java:21-56 | every corrected entry equals the reference entry |
| ShortInput.CorrectedGenerate | src/main/java/matrix/OptimizedMatrixGenerator.java:21-56 | the corrected generator returns the defining matrix for every number of samples |

## Left out

- Floating point is not modelled. The source reads `float` samples and multiplies them in `float`. It accumulates in `double` and narrows each cell to `float`. The tests compare the optimized output with fixed constants within `1e-6` (`TestOptimizedGenerator.java:242`). Rounding, and therefore that tolerance, is outside the model.
- The `App` entry point (`App.java`) is not modelled. It parses arguments, reads the input file and prints the matrix, and all of that is I/O.
- The `MatrixGenerator` interface is modelled as a choice of kind in `Generators.Generate`, not as an interface type. The third kind there is the corrected generator from `ShortInput`.
- The source remarks that the two family loops could run in parallel. No concurrency is modelled.
- The test class checks concrete results on a data file. That data file is not part of this model.
- Optimized.Generate: when `n < c` the source writes some cells and then throws an array-index exception. The model checks `n < c` before writing anything and returns `None`. Either way the caller gets no matrix.
- Optimized.Generate: `count` is a `nat`. The Java method takes an `int`. With `count == -1`, `new float[count+1][count+1]` (`OptimizedMatrixGenerator.java:23`) allocates a 0×0 matrix, every loop is skipped and the empty matrix is returned. With `count <= -2` that line throws `NegativeArraySizeException`. Neither case is modelled. `App` rejects `count <= 0` before calling a generator (`App.java:129`).
- Reference.Generate: `count` is a `nat`. With `count == -1`, `new float[count+1][count+1]` (`UnoptimizedMatrixGenerator.java:23`) gives a 0×0 matrix and the loops are skipped. With `count <= -2` it throws `NegativeArraySizeException`. Neither case is modelled, for the same reason (`App.java:129`).
- Optimized.Generate: 32-bit `int` overflow of indices and counts is not modelled. The model's integers are unbounded.

## Findings

| source | as written | input that shows it | evidently intended | confidence | as-written member | corrected member |
|---|---|---|---|---|---|---|
| src/main/java/matrix/OptimizedMatrixGenerator.java:119-148 | the common loop runs over `[offset0, n - c)`. The low loop adds `low` entries from `offset`. The high loop adds `offset` entries from `n - c`. When `n - c < offset0` the common range is inverted. The low and high ranges then overlap or include terms outside the window, so the cell over-counts. | `x = [1, 1, 1]`, `c = 2`: cell (0, 0) becomes `x[1]^2 + x[2]^2 = 2`, but the formula gives `x[2]^2 = 1`. The same happens for every `c <= n < 2c`. App never checks `n` against `c`. | every cell equals the reference generator's value, which the Javadoc names as the yardstick, for every `n >= c` | not executed | ShortInput.AsWrittenNeedsTwiceCount | ShortInput.CorrectedGenerate |

# AMixBenchmark: the amix mixing kernels, modelled and verified

AMixBenchmark measures many ways of computing one quantity of a mixing rule.
There are n components with weights `XY`, self-coefficients `ai` and
interaction corrections `kijm`. Each kernel builds the n-by-n interaction
matrix `Aij`:

- `Aij[i, i] = ai[i]`;
- `Aij[i, j] = sqrt(ai[i] * ai[j]) * (1 - kijm[i, j])` off the diagonal.

It then stores the row sums in `sumAi`, with `sumAi[i] = Σ_j XY[j] * Aij[i, j]`,
and returns `amix = Σ_i sumAi[i] * XY[i]`.

The kernels differ in four ways:

- They fill every cell ("full"), or only the upper triangle plus its mirror image ("mirrored").
- They write the diagonal first, last, or by a branch.
- They fill first and reduce later, or fuse the fill into the reduction.
- They address memory through a `double[,]`, through `Span<double>` windows over its storage, or through raw pointers.

This project models each kernel and each `BenchArray` fill routine as an
imperative Dafny method. Every kernel is proved to produce exactly the matrix, row
sums and amix of one reference definition. Most fill routines are proved to
produce exactly the matrix of one reference definition too, with two exceptions:

- `MirrorItemsConditional` is stated against the matrix it starts from, because what it leaves depends on that matrix (see "## Findings").
- `DoJustHalf` fills only the diagonal and the upper triangle and is proved to keep the strict lower triangle as it was.

Lemmas relate the reference definitions to each other.

- `Mixing` (mixing.dfy) holds the reference definitions and the lemmas between them:
  - `Cell(s, ..., i, j)` is the cell that strategy `s` (`Full`, `Mirrored`, or `TermsOnly` for the not yet corrected diagonal) defines;
  - `RowSpec` is a row sum, `AMixSpec` is amix, and `Quad` is the quadratic form Σ_i Σ_j XY[i]·XY[j]·Cell(i, j);
  - `RowDot` and `Weighted` are the reductions of whatever an array holds.
- `FlatLayout` (flat_layout.dfy) holds the row-major storage of a `double[,]`:
  - `RowStart` and `Offset` define offsets from additions only, and lemmas tie them to `i * n` and `i * n + j`;
  - `RowOf` and `ColOf` recover row and column from an offset;
  - `StoresRowMajor` says that a sequence is the storage of a matrix;
  - `Window` models a `Span<double>` (or `ReadOnlySpan<double>`) over that storage, `Slice` models `Span.Slice`, and `Index` models the span indexer. Each is a bounds-checked operation without an `ensures` of its own: what the kernels do through them is stated on the kernels.
- `Reducer` (reducer.dfy) holds the two reduction loops: `+=` into `sumAi`, and a local `sum` stored over `sumAi`.
- `MatrixBuilder` (matrix_builder.dfy) holds the fill routines of `BenchArray` (Program.cs:569-724). It also holds `MirrorItemsReadBack`, which is not a `BenchArray` routine: it is the first loop of `CalcAmixMirroredArraysInner` (Program.cs:301-309), placed here because its shape is that of the other fills.
- `Bench` (bench.dfy) holds the kernels over `double[,]`.
- `FlatBench` (flat_bench.dfy) holds the kernels that work on the storage of `Aij` and `kijm` through spans and pointers:
  - a pointer is a natural-number offset;
  - every dereference is a bounds-checked array index, so the proof also shows that no pointer or span access leaves the n·n elements.

Modelling choices:

- `double` is modelled as `real`.
- `Math.Sqrt` is an arbitrary total function `sqrt: TotalFn` passed to every member. Nothing about it is assumed unless a lemma's `requires` says so.
- Equalities between strategies therefore hold over the reals. In IEEE doubles, summation orders that differ can round differently.
- The inputs that the kernels only read (`XY`, `ai`, `kijm`) are values. The matrices they write (`Aij`) and the row-sum buffer (`sumAi`) are arrays.
- A kernel that reads `kijm` through its storage takes both the matrix value and its storage `kijmFlat`, related by `StoresRowMajor`.
- `BenchArray` keeps `n`, `ai`, `kijm` and `Aij` in fields that its constructor sets once and no routine reassigns, so they are parameters of each routine.

## Model

| member | source | states |
|---|---|---|
| Mixing.RowDotMatchesSpec | AMixBenchmark/Program.cs:127-131 | a row whose first m cells hold the strategy's cells has dot product `RowSpec` over those m columns |
| Mixing.WeightedMatchesSpec | AMixBenchmark/Program.cs:133-134 | row sums equal to `RowSpec` weight up to `AMixSpec`: amix == Σ sumAi[i]·XY[i] is the specified amix |
| Mixing.WeightedPrefix | AMixBenchmark/Program.cs:133-134 | amix accumulated over the first m rows depends only on the first m row sums |
| Mixing.Cancellation | AMixBenchmark/Program.cs:169-179 | starting at XY[i]·ai[i], adding every computed term (the diagonal one too) and subtracting XY[i] times the computed diagonal term gives the full-fill row sum |
| Mixing.MirroredReadsUpperTriangle | AMixBenchmark/Program.cs:364-368 | the mirrored cell (i, j) is the full-fill cell at (min(i,j), max(i,j)), and the mirrored matrix is symmetric |
| Mixing.MirroredMatchesFull | AMixBenchmark/Program.cs:364-368 | when kijm is symmetric, every mirrored cell equals the full-fill cell |
| Mixing.MirroredRowMatchesFull | AMixBenchmark/Program.cs:355-370 | when kijm is symmetric, every mirrored row sum equals the full-fill row sum |
| Mixing.MirroredAMixMatchesFull | AMixBenchmark/Program.cs:349-377 | when kijm is symmetric, the mirrored amix equals the full-fill amix |
| Mixing.AMixIsQuadraticForm | AMixBenchmark/Program.cs:127-135 | amix reduced row by row equals the quadratic form Σ_i Σ_j XY[i]·XY[j]·Cell(i, j) |
| Mixing.RowIsQuadRow | AMixBenchmark/Program.cs:127-134 | a row sum times XY[i] equals Σ_j XY[i]·XY[j]·Cell(i, j) |
| Mixing.SmallCases | AMixBenchmark/Program.cs:114-136 | with no components amix is 0; with one component it is XY[0]²·ai[0] |
| Mixing.WorkedExample | AMixBenchmark/Program.cs:114-136 | for ai = [4, 9], kijm 0.1 off the diagonal, XY = [0.5, 0.5] and sqrt(36) = 6: the off-diagonal cells are 5.4, the row sums 4.7 and 7.2, and amix is 5.95 |
| Mixing.NonNegativeCells | AMixBenchmark/Program.cs:123 | a non-negative ai, kijm ≤ 1 and a square root that is non-negative on non-negative arguments give non-negative cells |
| FlatLayout.RowStartIsProduct | AMixBenchmark/Program.cs:291-292 | the start of row i, built by adding n per row, is i·n |
| FlatLayout.AreaIsSquare | AMixBenchmark/Program.cs:226-228 | the storage of an n-by-n matrix has n·n elements |
| FlatLayout.RowStartMonotone | AMixBenchmark/Program.cs:238-239 | a later row starts at least n elements further on |
| FlatLayout.RowFits | AMixBenchmark/Program.cs:234-239 | row i < n lies inside the n·n elements |
| FlatLayout.RowColOfOffset | AMixBenchmark/Program.cs:74-85 | the offset RowStart(n, i) + j with j < n has row i and column j |
| FlatLayout.Offset | AMixBenchmark/Program.cs:76-84 | the offset of cell (i, j) lies in [0, n·n) and determines its row and column, so distinct cells never share an offset |
| FlatLayout.OffsetIsProduct | AMixBenchmark/Program.cs:546 | the offset of cell (i, j) is i·n + j, the address the source computes |
| FlatLayout.AppendRow | AMixBenchmark/Program.cs:226-227 | appending row k - 1 to the storage of the earlier rows gives the storage of the first k rows |
| FlatLayout.RowMajorPrefix | AMixBenchmark/Program.cs:226-227 | the first k rows laid out one after another hold cell (i, j) at Offset(n, i, j) |
| FlatLayout.RowMajor | AMixBenchmark/Program.cs:226-227 | the storage of an n-by-n matrix stores every cell at its offset |
| FlatLayout.RowWindow | AMixBenchmark/Program.cs:227-239 | the span from the start of row k to the end of the storage; for k < n it holds the whole row |
| FlatLayout.RowFitsWhenInside | AMixBenchmark/Program.cs:234-239 | row i lies inside the storage whenever i < n |
| FlatLayout.SliceRowWindow | AMixBenchmark/Program.cs:238-239 | the span over the storage is the span at row 0; Slice(n) moves the span at row k to row k + 1; element j of the span at row k is cell (k, j) |
| FlatLayout.SliceToRow | AMixBenchmark/Program.cs:502 | AijSpan.Slice(k·n) is within bounds and is the span at row k |
| FlatLayout.ColumnCursor | AMixBenchmark/Program.cs:546 | the column pointer (i + 1)·n + i addresses cell (i + 1, i) while i + 1 < n, and lies past the storage when i + 1 == n |
| Reducer.AccumulateRows | AMixBenchmark/Program.cs:127-135 | each sumAi[r] becomes its old value plus the row dot product; amix == Σ sumAi[r]·XY[r] over the new row sums |
| Reducer.AccumulateRow | AMixBenchmark/Program.cs:129-131 | sumAi[i] gains the row dot product of row i; no other row sum changes |
| Reducer.SumRows | AMixBenchmark/Program.cs:149-159 | sumAi[r] is overwritten with the row dot product, whatever it held; amix == Σ sumAi[r]·XY[r] |
| MatrixBuilder.DoAllItemsDiagonalSpecialCase | AMixBenchmark/Program.cs:584-597 | every cell is the full-fill cell: ai on the diagonal, the computed term off it |
| MatrixBuilder.DoAllItemsSegmented | AMixBenchmark/Program.cs:600-613 | every cell is the full-fill cell |
| MatrixBuilder.DoAllItemsDiagonalLast | AMixBenchmark/Program.cs:616-626 | every cell is the full-fill cell, the computed diagonal term being overwritten by ai |
| MatrixBuilder.MirrorItemsConditional | AMixBenchmark/Program.cs:629-643 | as written: diagonal ai; each upper cell (r, c) ends holding the incoming lower cell (c, r); every lower cell is unchanged; the result is symmetric |
| MatrixBuilder.ConditionalRow | AMixBenchmark/Program.cs:633-641 | row i of MirrorItemsConditional: column i above the diagonal copies the incoming row i, the rest of row i gets the computed term, the diagonal gets ai[i], and nothing else changes |
| MatrixBuilder.ConditionalMirrorLosesTerms | AMixBenchmark/Program.cs:637 | on a zero 2-by-2 matrix with ai = [4, 9] and kijm 0.1, cell (0, 1) ends at 0 where the computed term is 5.4 |
| MatrixBuilder.MirrorItemsConditionalIntended | AMixBenchmark/Program.cs:629-643 | with the copy reversed, every cell is the mirrored cell and the matrix is symmetric |
| MatrixBuilder.MirrorItemsDiagonalFirst | AMixBenchmark/Program.cs:646-659 | every cell is the mirrored cell; the matrix is symmetric |
| MatrixBuilder.MirrorItemsReadBack | AMixBenchmark/Program.cs:301-309 | every cell is the mirrored cell; the matrix is symmetric |
| MatrixBuilder.MirrorItemsDiagonalLast | AMixBenchmark/Program.cs:662-675 | every cell is the mirrored cell; the matrix is symmetric |
| MatrixBuilder.DoJustHalf | AMixBenchmark/Program.cs:678-687 | the diagonal and upper triangle hold the mirrored cells; the strict lower triangle is unchanged |
| MatrixBuilder.DoJustHalfThenMirrorByColumn | AMixBenchmark/Program.cs:690-705 | every cell is the mirrored cell; the matrix is symmetric |
| MatrixBuilder.DoJustHalfThenMirrorByRow | AMixBenchmark/Program.cs:708-723 | every cell is the mirrored cell; the matrix is symmetric |
| Bench.FilledReduces | AMixBenchmark/Program.cs:127-135 | a matrix that holds the strategy's cells has row dot products RowSpec |
| Bench.CalcAmixArraysInner | AMixBenchmark/Program.cs:114-136 | full-fill matrix; sumAi[r] == old sumAi[r] + RowSpec(Full, r); amix == Σ sumAi·XY, and == AMixSpec(Full) when sumAi starts zeroed |
| Bench.CalcAmixArraysInner2 | AMixBenchmark/Program.cs:138-160 | full-fill matrix; sumAi[r] == RowSpec(Full, r) whatever sumAi held; amix == Σ sumAi·XY == AMixSpec(Full); its span-typed twin CalcAmixSpansInner (Program.cs:188-215) runs the same loops over spans of XY, ai and sumAi |
| Bench.FusedRowTerms | AMixBenchmark/Program.cs:171-176 | row i holds the computed terms (the diagonal one too); no other row changes; sum == XY[i]·ai[i] + the row sum of the terms |
| Bench.DropDiagonal | AMixBenchmark/Program.cs:178 | subtracting XY[i] times the computed diagonal term leaves the full-fill row sum |
| Bench.FusedFullRow | AMixBenchmark/Program.cs:167-183 | row i ends as the full-fill row, no other row changes, and sum is its full-fill row sum |
| Bench.CalcAmixArraysInner3 | AMixBenchmark/Program.cs:162-186 | fused full fill: full-fill matrix, sumAi[r] == RowSpec(Full, r), amix == AMixSpec(Full) |
| Bench.CalcAmixMirroredArraysInner | AMixBenchmark/Program.cs:299-320 | mirrored symmetric matrix; sumAi[r] == old sumAi[r] + RowSpec(Mirrored, r); amix == AMixSpec(Mirrored) when sumAi starts zeroed; its span-typed twin CalcAmixMirroredSpansInner (Program.cs:379-405) runs the same loops over spans of XY, ai and sumAi |
| Bench.CalcAmixMirroredArraysInner2 | AMixBenchmark/Program.cs:322-347 | mirrored symmetric matrix; sumAi[r] == RowSpec(Mirrored, r); amix == AMixSpec(Mirrored); its span-typed twin CalcAmixMirroredSpansInner2 (Program.cs:407-437) runs the same loops over spans of XY, ai and sumAi |
| Bench.SumWrittenPrefix | AMixBenchmark/Program.cs:357-358 | the lower part of row i, already written by earlier rows, sums to the mirrored row sum over columns 0 .. i - 1 |
| Bench.MirroredUpperTerms | AMixBenchmark/Program.cs:360-370 | after the diagonal and the upper cells of row i, with their mirrors, are written, every cell in rows or columns ≤ i is the mirrored cell, and the full mirrored row sum is returned and the cells whose row and column both lie beyond i keep their old values |
| Bench.FusedMirroredRow | AMixBenchmark/Program.cs:355-370 | the fused mirrored precondition (every cell in a row or column < i is final) is carried from i to i + 1, and the row sum is RowSpec(Mirrored, i), whatever Aij held before and the cells whose row and column both lie beyond i keep their old values |
| Bench.CalcAmixMirroredArraysInner3 | AMixBenchmark/Program.cs:349-377 | fused mirrored fill: mirrored symmetric matrix, sumAi[r] == RowSpec(Mirrored, r), amix == AMixSpec(Mirrored), whatever Aij held before; its span-typed twin CalcAmixMirroredSpansInner3 (Program.cs:439-472) runs the same loops over spans of XY, ai and sumAi |
| FlatBench.FlatRowDotMatchesSpec | AMixBenchmark/Program.cs:96-101 | a stored row whose first m cells hold the strategy's cells has flat dot product RowSpec |
| FlatBench.FlatFilledReduces | AMixBenchmark/Program.cs:90-108 | a storage holding the strategy's cells at their offsets has row dot products RowSpec |
| FlatBench.MirroredStorageReduces | AMixBenchmark/Program.cs:487-521 | a storage holding the mirrored cells is symmetric; row sums equal to RowSpec(Mirrored) are its stored rows' dot products and weight up to AMixSpec(Mirrored) |
| FlatBench.PointerFill | AMixBenchmark/Program.cs:69-88 | walking `element` and `kijelement` through the two storages leaves the full-fill cell at every offset i·n + j |
| FlatBench.PointerAccumulateRow | AMixBenchmark/Program.cs:99-104 | the pointer moves exactly one row; sumAi[i] gains the row's dot product; no other row sum changes |
| FlatBench.PointerAccumulate | AMixBenchmark/Program.cs:91-110 | each sumAi[r] gains the stored row's dot product; amix == Σ sumAi·XY |
| FlatBench.CalcAmixInner | AMixBenchmark/Program.cs:63-110 | full-fill storage; sumAi[r] == old sumAi[r] + RowSpec(Full, r); amix == AMixSpec(Full) when sumAi starts zeroed |
| FlatBench.SpanFillDiagonalLast | AMixBenchmark/Program.cs:224-240 | advancing the row spans by Slice(n) leaves the full-fill cell at every offset, the diagonal overwritten last |
| FlatBench.SpanRowSum | AMixBenchmark/Program.cs:246-248 | the dot product of the row span is the row's flat dot product |
| FlatBench.SpanSumRows | AMixBenchmark/Program.cs:242-253 | sumAi[r] is overwritten with the stored row's dot product; amix == Σ sumAi·XY |
| FlatBench.CalcAmixSpansInner2 | AMixBenchmark/Program.cs:217-256 | full-fill storage; sumAi[r] == RowSpec(Full, r); amix == AMixSpec(Full) |
| FlatBench.SpanRowTerms | AMixBenchmark/Program.cs:275-283 | the row span holds the computed terms of row i; no other row changes; sum == XY[i]·ai[i] + the terms' row sum |
| FlatBench.SpanFusedFullRow | AMixBenchmark/Program.cs:275-286 | row i of the storage ends as the full-fill row, no other row changes, and sum is its full-fill row sum |
| FlatBench.CalcAmixSpansInner3 | AMixBenchmark/Program.cs:258-297 | fused full fill over spans: full-fill storage, sumAi[r] == RowSpec(Full, r), amix == AMixSpec(Full) |
| FlatBench.SpanMirroredPrefix | AMixBenchmark/Program.cs:491-494 | the already-written lower part of the row span sums to the mirrored row sum over columns 0 .. i - 1 |
| FlatBench.MirroredUpperDone | AMixBenchmark/Program.cs:500-512 | once every upper cell of row i and its mirror are written, every cell in rows or columns ≤ i is final |
| FlatBench.SpanMirroredCell | AMixBenchmark/Program.cs:505-510 | writing cell (i, j) through the row span and its mirror (j, i) through the column span extends the written part of row i by one cell and the row sum by one term; the cells whose row and column both lie beyond i, and the cells (i, c) and (c, i) for c > j, keep their old values |
| FlatBench.SpanMirroredUpper | AMixBenchmark/Program.cs:500-512 | the column span, started at Slice((i + 1)·n) and advanced by Slice(n), writes every mirror cell of row i, and the full mirrored row sum is returned; the cells whose row and column both lie beyond i keep their old values |
| FlatBench.SpanMirroredRow | AMixBenchmark/Program.cs:491-512 | the fused mirrored precondition is carried from row i to row i + 1, and the row sum is RowSpec(Mirrored, i); the cells whose row and column both lie beyond i keep their old values |
| FlatBench.CalcAmixMirroredSpansInner3a | AMixBenchmark/Program.cs:474-523 | mirrored symmetric storage, sumAi[r] == RowSpec(Mirrored, r), amix == AMixSpec(Mirrored), whatever AijFlat held before |
| FlatBench.PointerMirroredPrefix | AMixBenchmark/Program.cs:536-540 | the lower part of the row sums to the mirrored row sum over columns 0 .. i - 1, and the row pointer ends at the diagonal cell |
| FlatBench.PointerMirroredCell | AMixBenchmark/Program.cs:550-555 | writing through `AijDst` and `AijColJSpan` at offsets i·n + j and j·n + i extends the written part of row i by one cell and the row sum by one term; the cells whose row and column both lie beyond i, and the cells (i, c) and (c, i) for c > j, keep their old values |
| FlatBench.PointerMirroredUpper | AMixBenchmark/Program.cs:546-556 | the column pointer starts at (i + 1)·n + i and is never dereferenced when i + 1 == n; every mirror cell of row i is written; the row pointer ends at the next row; the cells whose row and column both lie beyond i keep their old values |
| FlatBench.PointerMirroredRow | AMixBenchmark/Program.cs:536-558 | the fused mirrored precondition is carried from row i to row i + 1; sum is RowSpec(Mirrored, i); `AijDst` ends at the start of row i + 1; the cells whose row and column both lie beyond i keep their old values |
| FlatBench.CalcAmixMirroredPointersInner3a | AMixBenchmark/Program.cs:525-566 | mirrored symmetric storage, sumAi[r] == RowSpec(Mirrored, r), amix == AMixSpec(Mirrored), whatever AijFlat held before |

## Left out

- `ArrayMaker` (random inputs) and the benchmark harness (setup, `[Benchmark]` methods, the fixed n = 10000, and `Main`): they only drive the kernels.
- Floating point: doubles are reals and `Math.Sqrt` is an unconstrained total function. Rounding, overflow, NaN and the difference between summation orders are not modelled, so every equality proved here holds over the reals only.
- `fixed`, `unsafe` and garbage-collector pinning: a pointer is an offset into the storage, and reading through it is a bounds-checked array index.
- FlatBench.CalcAmixInner: the source takes its fill bounds from `Aij.GetUpperBound` and its reduction bounds from `n`. The model takes the matrix as n-by-n, so both bounds are the same.
- The span-typed kernels CalcAmixSpansInner, CalcAmixMirroredSpansInner, CalcAmixMirroredSpansInner2 and CalcAmixMirroredSpansInner3: they index `double[,]` matrices just as their array twins do, so they are modelled by those twins. Read-only spans are values.
- Aliasing: `XY`, `ai` and `kijm` are values, so the model assumes that no kernel writes them. `sumAi` is therefore assumed distinct from `XY` and `ai`, and `Aij` (or its storage) from `sumAi` and `kijm`. The source does not enforce this: `CalcAmixArraysInner2(n, v, ai, kijm, Aij, v)` is a legal call, and its `sumAi[i] = sum` (Program.cs:156) then changes the `XY[i]` that the next rows and the amix read.
- Bench.CalcAmixArraysInner, Bench.CalcAmixMirroredArraysInner and FlatBench.CalcAmixInner add into `sumAi` without zeroing it first, as the source does. They equal the specified row sums and amix only when `sumAi` starts at zero, and their contracts say so.
- 32-bit offsets and lengths: the source computes offsets and lengths in `int`, such as `(i + 1) * n + i` (Program.cs:546), `AijSpan.Slice((i + 1) * n)` (Program.cs:502) and the `kijm.Length` and `Aij.Length` span lengths (Program.cs:226-228, 267-269, 483-485). These leave the `int` range once n·n exceeds `int.MaxValue`, that is from n = 46341. The pointer kernel would then address a wrapped offset, and the span kernels would throw. The model's offsets and lengths are unbounded naturals, so it describes only the sizes where no such overflow happens.
- Mismatched sizes: the kernels' preconditions (`KernelArgs`, `FlatArgs`) demand that `XY`, `ai`, `sumAi`, `kijm` and `Aij` all have n (or n-by-n) elements. With other sizes the source's checked array and span kernels throw `IndexOutOfRangeException` or `ArgumentOutOfRangeException` partway through, and the pointer kernels read or write outside the arrays. Those error paths are not modelled.
- Negative n: `n` is a `nat`. With a negative `n` the source skips every loop over n and returns 0, except that `CalcAmixInner` still fills `Aij` from its `GetUpperBound` bounds.
- Timing, cache behaviour and the relative speed of the strategies, which are what the benchmark measures.

## Findings

| source | as written | input that shows it | evidently intended | confidence | as-written member | corrected member |
|---|---|---|---|---|---|---|
| AMixBenchmark/Program.cs:637 | for j < i, MirrorItemsConditional copies the lower cell `Aij[i, j]` over the upper cell `Aij[j, i]`. That upper cell was computed at row j, and the lower cell is never written, so every off-diagonal pair ends holding the lower cell's incoming value | n = 2, a zeroed `Aij`, ai = [4, 9], kijm 0.1 off the diagonal, sqrt(36) = 6: cell (0, 1) ends at 0 instead of 5.4 | copy the other way, `Aij[i, j] = Aij[j, i]`, so that the matrix is the mirror of its computed upper triangle | not executed; high | MatrixBuilder.ConditionalMirrorLosesTerms | MatrixBuilder.MirrorItemsConditionalIntended |

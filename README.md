# GBTL sequential backend: mxv and extract

A Dafny model of two GraphBLAS kernels of the GBTL sequential backend:

- `backend::mxv` multiplies a sparse matrix by a sparse vector over a semiring, in three phases:
  - three shape checks, each of which raises a dimension error before anything changes;
  - a row loop that builds the sparse intermediate `t`, with one semiring dot product per non-empty row;
  - the masked-accumulate-write protocol: `t` is merged with the current output `w` through an optional accumulator into `z` (`ewise_or_opt_accum_1D`), and `z` is committed into `w` through an optional mask, in merge or replace mode (`write_with_opt_mask_1D`).
- `extract` gathers the entries of a vector, a sub-matrix or one column, chosen by index lists, into an output. The lists may hold duplicates or permutations, or be the `AllIndices` sentinel. The gathered result then goes through the same masked-accumulate-write protocol.

Sparse storage is a sequence of `(index, value)` pairs with strictly ascending indices (`Sparse.Ascending`). A matrix is a sequence of such rows. `Sparse.Lookup` reads a sparse sequence pointwise, and `Sparse.Extensional` shows that this pointwise view determines the sequence. Every kernel is therefore specified pointwise.

Vectors and matrices are classes (`Containers.Vector`, `Containers.Matrix`), because the kernels overwrite their output in place. A kernel returns a `Status`: `DimensionMismatch` models the `DimensionException`. The kernels read their inputs through `old(...)` snapshots, so an output that aliases an input is handled as mxv does: `t` and `z` are computed before `w` is written. The extract methods are given the same order.

The helpers `dot`, `ewise_or_opt_accum_1D` and `write_with_opt_mask_1D` live in `sparse_helpers.hpp`, which is not part of this model. They are modelled from their documented behaviour:

- `dot` is a two-pointer intersection of two ascending sequences (`Helpers.Dot`). It is proved equal to the reference `Helpers.DotProduct`: the semiring add folded from `zero` over the products at matching indices, in index order, or `None` when no index matches.
- `ewise_or_opt_accum_1D` is a union merge by ascending index (`Helpers.UnionWith`). It is the identity on `t` when there is no accumulator.
- `write_with_opt_mask_1D` is `Helpers.MaskedWrite`. A mask position counts as true when the mask stores `true` there.

`extract` is modelled from its unit tests: a function-level specification, the three kernel methods, one lemma per test case, and the method `ExtractExamples.VectorBoundsCheck` for the bounds-check case, whose point is the returned status. The tests build their data from dense literals and treat the element equal to the implied zero as absent (0 for values, `false` for masks). `Sparse.FromDense` models that conversion. `Extract.ExtractDense` and `Extract.ExtractMatrixDense` prove that, on this representation, extract agrees with its dense reading position by position. Each test-case lemma is an instance of one of them.

## Model

| member | source | states |
|---|---|---|
| Sparse.NVals | src/graphblas/system/sequential/sparse_mxv.hpp:71 | a matrix's nvals is 0 exactly when every row is empty |
| Sparse.FromDense | src/test/test_sparse_extract.cpp:110 | the sparse form of a dense literal is ascending and within the literal's size |
| Sparse.FromDenseSpec | src/test/test_sparse_extract.cpp:235 | the sparse form of a dense literal stores exactly the elements other than the implied zero, at their positions |
| Helpers.ProductsEmptyIff | src/graphblas/system/sequential/sparse_mxv.hpp:83 | a row and u yield no product exactly when they share no index (both directions) |
| Helpers.DotProductSomeIff | src/graphblas/system/sequential/sparse_mxv.hpp:83 | dot reports a value exactly when the row and u share an index (both directions) |
| Helpers.Dot | src/graphblas/system/sequential/sparse_mxv.hpp:82-83 | the two-pointer loop returns exactly the reference dot product: `None` with no overlap, otherwise add folded from zero over mult of the matching entries in index order |
| Helpers.UnionWith | src/graphblas/system/sequential/sparse_mxv.hpp:96 | the union merge is ascending; at every index it holds f(a_i, b_i) when both are present, otherwise whichever side is present, otherwise nothing |
| Helpers.EWiseOrOptAccum | src/graphblas/system/sequential/sparse_mxv.hpp:93-96 | z is ascending; with NoAccumulate z is exactly t; with accum, z_i is accum(w_i, t_i) when both are present, w_i or t_i when only one is, absent otherwise |
| Helpers.EWiseOrOptAccumBounded | src/graphblas/system/sequential/sparse_mxv.hpp:95-96 | z stays within the output's dimension |
| Helpers.Select | src/graphblas/system/sequential/sparse_mxv.hpp:100 | the filter keeps exactly the entries whose mask truth equals the requested one, in ascending order |
| Helpers.MaskedWrite | src/graphblas/system/sequential/sparse_mxv.hpp:99-100 | without a mask w becomes z; with a mask, a mask-true index takes z_i (absent if z has none); a mask-false index keeps the old w_i in merge mode and is cleared in replace mode |
| Helpers.MaskedWriteBounded | src/graphblas/system/sequential/sparse_mxv.hpp:100 | the committed output stays within the output's dimension |
| Helpers.NoMaskNoAccumReplaces | src/graphblas/system/sequential/sparse_mxv.hpp:96-100 | with NoMask and NoAccumulate the output becomes exactly t, and the old contents are discarded |
| Helpers.AccumulateAndWriteAt | src/graphblas/system/sequential/sparse_mxv.hpp:94-100 | at every index the protocol's result is the mask rule applied to the old w_i and the accumulated z_i |
| Helpers.AccumulateAndWriteBounded | src/graphblas/system/sequential/sparse_mxv.hpp:94-100 | the protocol keeps an output of dimension n well formed |
| Helpers.AccumulateAndWriteRows | src/test/test_sparse_extract.cpp:212-325 | the matrix protocol applies the vector protocol row by row, with the matching mask row |
| Helpers.AccumulateAndWriteRowsAt | src/test/test_sparse_extract.cpp:212-325 | entry [i][j] of the matrix protocol's result is the mask rule, with mask row i, applied to the old [i][j] and to the accumulate of the old [i][j] with the gathered [i][j] |
| Helpers.AccumulateAndWriteRowsBounded | src/test/test_sparse_extract.cpp:212-325 | the matrix protocol keeps an nrows x ncols output well formed |
| Containers.Vector.constructor | src/test/test_sparse_extract.cpp:46 | a new vector of size n stores nothing |
| Containers.Vector.FromContents | src/test/test_sparse_extract.cpp:35 | a vector built from well-formed entries holds exactly those entries |
| Containers.Matrix.constructor | src/test/test_sparse_extract.cpp:125 | a new m x n matrix stores nothing |
| Containers.Matrix.FromRows | src/test/test_sparse_extract.cpp:110 | a matrix built from well-formed rows holds exactly those rows |
| Containers.WriteWithOptMask1D | src/graphblas/system/sequential/sparse_mxv.hpp:100 | w's new contents are MaskedWrite of its old contents and z, and w stays well formed |
| Containers.WriteWithOptMask2D | src/test/test_sparse_extract.cpp:212-289 | the matrix's new rows are the row-wise masked write of its old rows and z |
| Mxv.Intermediate | src/graphblas/system/sequential/sparse_mxv.hpp:73-85 | t is strictly ascending and every index is below size(w), because row_idx only increases over [0, size(w)) and each row pushes at most once |
| Mxv.IntermediateAt | src/graphblas/system/sequential/sparse_mxv.hpp:76-87 | at every index r, t holds exactly the dot product of row r of A with u (absent when dot reports no match), and nothing outside [0, size(w)) |
| Mxv.IntermediateContents | src/graphblas/system/sequential/sparse_mxv.hpp:76-87 | t contains (r, v) exactly when r is a scanned row and its dot product with u is v (both directions) |
| Mxv.NoOverlapNoEntry | src/graphblas/system/sequential/sparse_mxv.hpp:80-86 | a row that shares no index with u contributes nothing to t |
| Mxv.IntermediateEmpty | src/graphblas/system/sequential/sparse_mxv.hpp:71 | when A.nvals() == 0 or u.nvals() == 0, t is empty |
| Mxv.MultiplyRows | src/graphblas/system/sequential/sparse_mxv.hpp:71-89 | the guarded row loop with its push_back produces exactly the specified intermediate t |
| Mxv.Mxv | src/graphblas/system/sequential/sparse_mxv.hpp:51-100 | the call succeeds exactly when size(w) == size(mask), size(w) == nrows(A) and ncols(A) == size(u); on failure w is untouched; on success w is the masked-accumulate-write of t into the old w, and with NoMask and NoAccumulate w is exactly t |
| MxvExamples.ArithmeticIntermediate | src/graphblas/system/sequential/sparse_mxv.hpp:71-89 | over (times, plus, 0), A = {{1, 2, 0}, {0, 3, 0}, {0, 0, 0}} and u = {0, 10, 0} give t = {20, 30} at rows 0 and 1, the empty row 2 contributing nothing |
| MxvExamples.ArithmeticAccumulate | src/graphblas/system/sequential/sparse_mxv.hpp:91-100 | Plus accumulation of that t into w = {1, 0, 5} with no mask gives {21, 30, 5}: entries in both are added, entries in one side are kept |
| Extract.Resolve | src/test/test_sparse_extract.cpp:375-380 | AllIndices over a dimension n stands for 0, 1, ..., n-1 in order; an explicit list stands for itself |
| Extract.Gather | src/test/test_sparse_extract.cpp:32-55 | the gathered vector is ascending, with one possible entry per index in the list |
| Extract.GatherAt | src/test/test_sparse_extract.cpp:32-55 | output position i holds u[indices[i]] (absent when u stores nothing there), and nothing beyond the list |
| Extract.GatherDuplicates | src/test/test_sparse_extract.cpp:138-171 | positions whose indices are equal receive the same source value |
| Extract.GatherDense | src/test/test_sparse_extract.cpp:32-55 | on the implied-zero representation, the sparse gather equals the dense gather |
| Extract.GatherRows | src/test/test_sparse_extract.cpp:105-135 | the gathered matrix is |rows| x |cols|, and row i is row rows[i] of A gathered by cols |
| Extract.GatherRowsAt | src/test/test_sparse_extract.cpp:105-208 | output [i][j] holds A[rows[i]][cols[j]] |
| Extract.Column | src/test/test_sparse_extract.cpp:330-356 | column c of a matrix is a well-formed vector over the row indices |
| Extract.ColumnAt | src/test/test_sparse_extract.cpp:330-356 | index r of column c holds A[r][c] |
| Extract.ColumnDense | src/test/test_sparse_extract.cpp:330-385 | on the implied-zero representation, the sparse column equals the dense column |
| Extract.ExtractDense | src/test/test_sparse_extract.cpp:32-101 | on the implied-zero representation, vector extract agrees position by position with its dense reading (gather, accumulate, mask rule) |
| Extract.ExtractMatrixDense | src/test/test_sparse_extract.cpp:105-325 | on the implied-zero representation, sub-matrix extract agrees position by position with its dense reading |
| Extract.ExtractVector | src/test/test_sparse_extract.cpp:32-101 | the call succeeds exactly when size(w) == size(mask) and the index count equals size(w); on failure w is untouched; on success w is the masked-accumulate-write of the gathered u into the old w |
| Extract.ExtractColumn | src/test/test_sparse_extract.cpp:330-385 | the same checks and commit, with w[i] taken from A[rows[i]][col] |
| Extract.ExtractMatrix | src/test/test_sparse_extract.cpp:105-325 | the call succeeds exactly when the mask has the shape of the result and the result is |rows| x |cols|; on failure the result is untouched; on success each row is committed from the gathered matrix through the protocol |
| ExtractExamples.VectorBase | src/test/test_sparse_extract.cpp:32-55 | {1, ..., 6} gathered at {0, 2, 4} gives {1, 3, 5} |
| ExtractExamples.VectorBoundsCheck | src/test/test_sparse_extract.cpp:57-102 | a result of size 2 under a mask of size 3, and two indices for a result of size 3, both report a dimension mismatch and leave the result empty |
| ExtractExamples.MatrixBase | src/test/test_sparse_extract.cpp:105-135 | rows {0, 2} by columns {1, 2} give {{1, 6}, {9, 2}} |
| ExtractExamples.MatrixDuplicate | src/test/test_sparse_extract.cpp:138-171 | rows {0, 2, 2} by columns {1, 1, 2} give {{1, 1, 6}, {9, 9, 2}, {9, 9, 2}} |
| ExtractExamples.MatrixPermute | src/test/test_sparse_extract.cpp:174-208 | rows {2, 0, 1} by columns {1, 2, 0} give {{9, 2, 4}, {1, 6, 8}, {5, 7, 3}} |
| ExtractExamples.MatrixMask | src/test/test_sparse_extract.cpp:212-246 | under the mask {{true, false}, {true, true}} in merge mode, an empty result becomes {{1, 0}, {9, 2}} |
| ExtractExamples.MatrixMaskReplace | src/test/test_sparse_extract.cpp:250-289 | with A[2][2] = 0, the same mask and replace, a result of 20s becomes {{1, 0}, {9, 0}} |
| ExtractExamples.MatrixAccum | src/test/test_sparse_extract.cpp:293-325 | Plus accumulation into 20s gives {{21, 26}, {29, 22}} |
| ExtractExamples.ColumnRows | src/test/test_sparse_extract.cpp:330-356 | rows {0, 2} of column 1 give {1, 9} |
| ExtractExamples.ColumnAll | src/test/test_sparse_extract.cpp:360-385 | AllIndices of column 1 gives {1, 5, 9} |

## Left out

- Floating point: the tests use `double` but only small integers. Values are a generic `T`, and `int` in the test cases.
- One scalar type: the source lets the types of A, u, the semiring result and w differ. The model uses one type throughout.
- Storage backends (LilSparseMatrix, SparseBitmapVector), `buildmatrix`, dense construction and equality printing: they are abstracted as `Sparse.FromDense`, the conversion from a dense literal with an implied zero.
- The vector constructor without an implied zero (`Vector<double> vU(vecU)`, src/test/test_sparse_extract.cpp:35) stores every element. The test data holds no zero, so `Sparse.FromDense` gives the same contents.
- The empty results of the test cases are written as the sparse form of an all-zero literal. That form is the empty row, which is what the constructor at src/test/test_sparse_extract.cpp:125 stores.
- `sparse_helpers.hpp` is not part of this model. `dot`, `ewise_or_opt_accum_1D` and `write_with_opt_mask_1D` are modelled from their documented behaviour, not from their code.
- Extract.ExtractVector: requires every index to be below size(u). The behaviour for an out-of-range index is not visible in the modelled files.
- Extract.ExtractColumn: requires every row index to be below nrows(A) and the column to be below ncols(A), for the same reason.
- Extract.ExtractMatrix: requires every row and column index to be in range, for the same reason.
- Masks are boolean vectors and matrices. A mask of another value type, converted to bool, is not modelled.
- Exception messages are not modelled; a failed check is only a `DimensionMismatch` status. The message at src/graphblas/system/sequential/sparse_mxv.hpp:61 reads "nrows(A) == size(u)", but the check it labels compares ncols(A) with size(u). The model follows the check.
- The commented-out alternative at src/graphblas/system/sequential/sparse_mxv.hpp:102-117 and the template dispatch (the `@todo` at line 44) are not modelled.
- The graph metrics in src/test/test_metrics.cpp are clients of the kernels, and their implementations are not part of this model.
- The test harness and the logging level are not modelled.

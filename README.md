# SparseMatrixCSR in Dafny

A verified model of `SparseMatrixCSR`, a matrix class that keeps only the
non-zero cells of a `rows` x `cols` matrix, in compressed sparse row (CSR) form:

- `row_offsets` has rows + 1 entries;
- `column_indices` and `nnz_values` each have nnz entries;
- row r's entries occupy positions `row_offsets[r] .. row_offsets[r+1]` of those two arrays.

The class builds itself from a dense matrix (`buildFromDense`). It multiplies
by a dense vector (`multiply`) and produces its transpose by counting sort
(`transpose`). It reports its dimensions and entry count (`getRows`,
`getCols`, `getNNZ`).

The model keeps the class's imperative form:

- `SparseMatrix.SparseMatrixCSR` is a Dafny class with the same six fields. The three vectors are `seq` fields.
- Its methods have loops that mirror the C++ loops, each proved against a specification.

The specification is built in layers:

- `Dense` is the reference: dense matrices, the dense product (the benchmark's `DenseMatrix::multiply`), dense transposition, and the compression of a row to its non-zero columns and values.
- `CsrFormat` is the layout as a value `Csr`. It gives:
  - the layout invariant `WellFormed`: offsets start at 0, never decrease and end at nnz; columns are in range and strictly increasing within a row; no stored value is zero;
  - the dense matrix a layout stands for (`ToDense`);
  - the canonical layout of a dense matrix (`FromDense`);
  - the two round trips between them, which make the canonical layout unique.
- `ColumnCounts` holds the counting-sort theory behind `transpose`:
  - per-column counts and their prefix sums;
  - the row owning each stored position;
  - what the scatter has placed after k entries.
- `TransposeSpec` defines the transpose of a layout as the canonical layout of the transposed dense matrix. It proves that the scatter produces exactly that.
- `Scenarios` replays the unit tests of `sparse_matrix_test.cpp` against the class's contracts.

## Model

| member | source | states |
|---|---|---|
| SparseMatrix.SparseMatrixCSR.constructor | SparseMatrixCSR.h:21 | rows and cols are the arguments and nnz is 0; the offsets are r+1 zeros and both entry arrays are empty; the result satisfies the CSR invariant and stands for the all-zero r x c matrix |
| CsrFormat.EmptyIsZero | SparseMatrixCSR.h:21 | the layout of a fresh matrix is well formed and is the canonical layout of the zero matrix |
| SparseMatrix.SparseMatrixCSR.BuildFromDense | SparseMatrixCSR.cpp:5-34 | a wrong row count gives RowCountMismatch, and a row of the wrong length gives ColumnCountMismatch, both leaving every field unchanged; a well-shaped input gives the canonical layout of the input, which is well formed and stands for exactly the input, with nnz equal to the number of non-zero cells |
| SparseMatrix.SparseMatrixCSR.CheckShape | SparseMatrixCSR.cpp:6-14 | the row count is checked first, then every row's length; it fails with the matching error exactly when the input is not rows x cols |
| SparseMatrix.SparseMatrixCSR.Compress | SparseMatrixCSR.cpp:16-33 | after clearing the entries and scanning the rows, the six fields are the canonical layout of the input |
| SparseMatrix.SparseMatrixCSR.AppendRow | SparseMatrixCSR.cpp:24-31 | scanning one row in ascending column order appends its non-zero columns and values to the entry arrays, keeping nnz equal to their length and the offsets untouched |
| Dense.CompressStep | SparseMatrixCSR.cpp:25-30 | taking in one more cell appends its column and value exactly when the cell is non-zero |
| CsrFormat.FromDenseStep | SparseMatrixCSR.cpp:23-33 | taking in one more row appends its compression to the entry arrays and the new entry count to the offsets |
| Dense.NonZeroColsSpec | SparseMatrixCSR.cpp:24-30 | the compression of a row lists, strictly increasing, exactly the columns of its non-zero cells, each with that cell's value |
| CsrFormat.FromDenseWellFormed | SparseMatrixCSR.cpp:16-33 | the canonical layout of a rows x cols matrix satisfies the CSR invariant |
| CsrFormat.FromDenseArrays | SparseMatrixCSR.cpp:27-32 | canonical offsets never decrease; every stored column is below cols and every stored value is non-zero |
| CsrFormat.FromDenseSegment | SparseMatrixCSR.cpp:23-33 | row r's segment of the canonical layout is exactly row r's compression, so its length is row r's non-zero count |
| CsrFormat.ToDenseOfFromDense | SparseMatrixCSR.cpp:5-34 | the canonical layout of a dense matrix stands for exactly that matrix |
| CsrFormat.FromDenseOfToDense | SparseMatrixCSR.h:14-16 | every well-formed layout is the canonical layout of the matrix it stands for, so a layout is determined by its matrix |
| CsrFormat.SegmentsDetermine | SparseMatrixCSR.h:14-16 | a layout whose offsets run from 0 to nnz and whose row segments are the compressions of a dense matrix's rows is that matrix's canonical layout |
| CsrFormat.RowIsCompressed | SparseMatrixCSR.h:14-16 | each row segment of a well-formed layout is the compression of the dense row it stands for |
| CsrFormat.StoresIffAt | SparseMatrixCSR.h:14-16 | a well-formed layout stores (r, c, v) exactly when r and c are in range, the element at (r, c) is v, and v is non-zero |
| CsrFormat.FromDenseStores | SparseMatrixCSR.cpp:23-31 | the canonical layout stores (r, c, v) exactly when dense[r][c] = v and v is non-zero |
| CsrFormat.NnzCountsNonZeroCells | SparseMatrixCSR.cpp:16-29 | the canonical layout stores as many entries as the matrix has non-zero cells |
| Dense.RowCellsCount | SparseMatrixCSR.cpp:24-30 | a row's compression has as many columns as the row has non-zero cells |
| CsrFormat.LookupCompressed | SparseMatrixCSR.cpp:24-30 | looking up column c in a row's compression gives back the row's cell c, zero cells included |
| CsrFormat.CompressLookup | SparseMatrixCSR.h:14-16 | compressing the dense row that a valid segment stands for gives back that segment |
| SparseMatrix.SparseMatrixCSR.Multiply | SparseMatrixCSR.cpp:36-51 | a vector whose length is not cols gives VectorSizeMismatch, and only such a vector does; otherwise the result has one entry per row, entry r is the sum of value * x[column] over row r's segment, and the whole result equals the dense product of the matrix with x; no field changes |
| CsrFormat.SegmentSumStep | SparseMatrixCSR.cpp:43-47 | the running sum over a row segment grows by value * x[column] per stored entry |
| CsrFormat.RowProduct | SparseMatrixCSR.cpp:41-49 | the sparse sum over row r's segment equals the dense dot product of row r with x |
| CsrFormat.CompressedDot | benchmark.cpp:19-23 | the sum over a row's non-zero cells equals the full dense dot product, since zero cells add nothing |
| CsrFormat.SparseDotSnoc | SparseMatrixCSR.cpp:46 | appending an entry adds value * x[column] to the sparse sum |
| SparseMatrix.SparseMatrixCSR.Transpose | SparseMatrixCSR.cpp:53-93 | the result is fresh, with rows and cols swapped and the same nnz; its offsets are the prefix sums of the per-column counts; its fields are exactly the canonical layout of the transposed matrix; the receiver does not change |
| SparseMatrix.SparseMatrixCSR.CountColumns | SparseMatrixCSR.cpp:55-58 | entry c of the counts is the number of stored entries in column c |
| SparseMatrix.SparseMatrixCSR.PrefixSumsOf | SparseMatrixCSR.cpp:59-62 | the new offsets start at 0 and each adds the next column's count |
| SparseMatrix.SparseMatrixCSR.Scatter | SparseMatrixCSR.cpp:70-89 | once every entry is placed, column c's run of the new arrays holds the old rows and values of column c's entries, in storage order |
| SparseMatrix.SparseMatrixCSR.ScatterRow | SparseMatrixCSR.cpp:73-88 | placing one old row's entries keeps the scatter state: the counters count what remains and the runs hold what was placed |
| SparseMatrix.SparseMatrixCSR.PlaceEntry | SparseMatrixCSR.cpp:74-87 | writing (column, row, value) at the computed position and decrementing that column's counter extends the scatter state by one entry |
| ColumnCounts.ScatterEntry | SparseMatrixCSR.cpp:82-87 | the counter of the entry's column is positive before the decrement; the position computed from the counters is the entry's slot, SlotOf, and lies in that column's run [new_row_offsets[col], new_row_offsets[col+1]); the write and decrement give the state after one more entry |
| ColumnCounts.ScatterSlotsDistinct | SparseMatrixCSR.cpp:82-85 | two different entries never get the same slot; since every slot lies in 0 .. nnz and there are nnz entries, each slot of the new arrays is written exactly once |
| ColumnCounts.SlotInRun | SparseMatrixCSR.cpp:82 | an entry's slot lies inside its column's run of the new arrays |
| ColumnCounts.PrefixCountGrows | SparseMatrixCSR.cpp:82 | a later entry has seen at least as many earlier entries of its column, so later entries of one column land further along its run |
| ColumnCounts.RemainingStep | SparseMatrixCSR.cpp:82-87 | counts[col] - counters[col] is the number of earlier entries of the same column, and the counter stays non-negative after the decrement |
| ColumnCounts.ScatterStep | SparseMatrixCSR.cpp:82-85 | the slot after a column's earlier entries lies inside that column's run, and writing there keeps every run filled with the column's entries in storage order |
| ColumnCounts.ScatterBegin | SparseMatrixCSR.cpp:66-70 | arrays resized to nnz and counters copied from the counts form the state before any entry is placed |
| ColumnCounts.PrefixSumsShape | SparseMatrixCSR.cpp:59-62 | new offset c counts the entries in columns below c; the offsets never decrease and end at nnz |
| ColumnCounts.BelowStep | SparseMatrixCSR.cpp:61 | counting the entries below column c+1 adds column c's count to those below c |
| ColumnCounts.CollectCount | SparseMatrixCSR.cpp:56-57 | the entries of column c among the first k gather exactly as many items as column c occurs there |
| ColumnCounts.RowIdsSpec | SparseMatrixCSR.cpp:72-73 | every position of row r's segment belongs to row r |
| ColumnCounts.ScatteredRun | SparseMatrixCSR.cpp:72-89 | after the whole scatter, new row c's segment is exactly what column c's entries carry, in storage order |
| TransposeSpec.TransposeOf | SparseMatrixCSR.cpp:53-93 | the transpose of a well-formed layout is well formed, has swapped dimensions, and stands for the transposed dense matrix |
| TransposeSpec.ScatterReady | SparseMatrixCSR.cpp:55-62 | the counts and prefix sums are a valid start for the scatter, and the old offsets delimit the old rows |
| TransposeSpec.ScatterDone | SparseMatrixCSR.cpp:72-91 | the offsets, indices and values the scatter produces are the canonical layout of the transpose |
| TransposeSpec.ScatteredColumn | SparseMatrixCSR.cpp:72-89 | new row c, as scattered, is the compression of old column c: rows strictly increasing, values matching |
| TransposeSpec.ColumnCollect | SparseMatrixCSR.cpp:72-75 | scanning the old rows in order meets column c's entries in ascending row order with their cells' values |
| TransposeSpec.ColumnCollectStored | SparseMatrixCSR.cpp:73-79 | a row that stores column c contributes exactly one entry, carrying its row and its non-zero value |
| TransposeSpec.ColumnCollectAbsent | SparseMatrixCSR.cpp:73-79 | a row that does not store column c contributes nothing, and its cell in column c is zero |
| TransposeSpec.CountsSoFar | SparseMatrixCSR.cpp:56-57 | the rows and values gathered for column c among the first k entries number as many as column c's occurrences there |
| TransposeSpec.TransposeStores | SparseMatrixCSR.cpp:72-88 | the transpose stores (c, r, v) exactly when the matrix stores (r, c, v) |
| TransposeSpec.TransposeInvolution | SparseMatrixCSR.cpp:53-93 | transposing twice gives back the very same offsets, indices and values |
| TransposeSpec.TransposeKeepsNnz | SparseMatrixCSR.cpp:68 | the transpose stores as many entries as the matrix |
| Dense.TransposeTwice | SparseMatrixCSR.cpp:77-79 | transposing a dense matrix twice gives it back |
| SparseMatrix.SparseMatrixCSR.GetRows | SparseMatrixCSR.cpp:95-97 | the row count, one less than the number of offsets and the number of rows of the dense matrix it stands for |
| SparseMatrix.SparseMatrixCSR.GetCols | SparseMatrixCSR.cpp:99-101 | the column count; every stored column index is below it |
| SparseMatrix.SparseMatrixCSR.GetNNZ | SparseMatrixCSR.cpp:103-105 | the entry count, equal to the length of both entry arrays and to the last offset |
| Scenarios.SingleFacts | sparse_matrix_test.cpp:6-21 | [[8]] stores one entry and maps [2] to [16] |
| Scenarios.BasicFacts | sparse_matrix_test.cpp:23-43 | the 3 x 3 test matrix maps [1, 1, 1] to [3, 3, 9] |
| Scenarios.IdentityFacts | sparse_matrix_test.cpp:45-67 | the 3 x 3 identity stores three entries and maps every vector to itself |
| Scenarios.ZerosFacts | sparse_matrix_test.cpp:69-82 | the 2 x 2 zero matrix stores nothing |
| Scenarios.SquareFacts | sparse_matrix_test.cpp:105-132 | [[1, 2], [3, 0]] stores three entries; its transpose is [[1, 3], [2, 0]] and maps [1, 1] to [4, 2] |
| Scenarios.IdentitySymmetric | sparse_matrix_test.cpp:134-158 | the 3 x 3 identity is its own transpose |
| Scenarios.WideFacts | sparse_matrix_test.cpp:160-179 | the 2 x 3 test matrix stores four entries |

The scenario methods in `Scenarios` combine these facts with the class's
contracts. Each one asserts the values its unit test checks:

- `SingleElement`;
- `BasicMultiplication`;
- `IdentityMatrix`;
- `EmptyMatrix`;
- `DimensionMismatch`, where the vector of length 3 is rejected with `VectorSizeMismatch`;
- `BasicTranspose`;
- `TransposeIdentity`;
- `TransposeRectangular`.

`multiply` and `transpose` are `const` in the C++. In the model, `Multiply`
and `Transpose` have no `modifies` clause, so the verifier holds them to
leaving every field of the receiver as it was.

## Left out

- IEEE double arithmetic. Element values are exact integers, and "non-zero" is an exact test against 0. So the model has no rounding in the running sum, no `-0.0`, and no NaN (a NaN cell compares unequal to 0 and would be stored).
- Integer widths. Counts and indices are unbounded naturals, so `int` overflow and the mixing of signed and `size_t` comparisons are not modelled.
- Exceptions. The two `std::invalid_argument` throws of `buildFromDense` and the one of `multiply` are results: `Outcome.Fail` and `Result.Failure` with a `DimensionError`.
- The constructor's negative sizes. Its arguments are naturals, so the model does not capture a negative `r` making `row_offsets(r + 1, 0)` ill-formed.
- `rows` and `cols` are `const` fields. The C++ never assigns them after construction, but it does not declare them `const`.
- SparseMatrix.SparseMatrixCSR.BuildFromDense: requires the whole class invariant on entry, not just what the C++ code reads. The fields are private. The constructor creates the invariant, `buildFromDense` keeps it (it only overwrites offsets 0 .. rows and never resizes `row_offsets`), and `transpose` creates it for the matrix it returns. So every object the C++ can call `buildFromDense` on already satisfies it. The model states this as a precondition because the constructor, `BuildFromDense` and `Transpose` all ensure `Valid()`, and a rejected call must return the matrix unchanged, still valid.
- SparseMatrix.SparseMatrixCSR.Transpose: the scatter writes two local sequences, which are stored into the new object's fields at the end. The C++ resizes the new object's vectors and writes into them directly, and no other reference can see the difference.
- Helper methods. The row-checking loop, the filling loops of `buildFromDense`, and the three phases and loop bodies of `transpose` are separate methods (`CheckShape`, `Compress`, `AppendRow`, `CountColumns`, `PrefixSumsOf`, `Scatter`, `ScatterRow`, `PlaceEntry`). Each performs the same steps in the same order as the inlined C++ code.
- A failed `buildFromDense` leaves the matrix exactly as it was. The code checks both dimensions before touching any field, and the model follows the code rather than treating the state after a rejected call as unspecified.
- `benchmark.cpp`: timing, random generation, memory-usage estimates and printing are not modelled. Only `DenseMatrix::multiply` is used, as the reference product `Dense.Multiply`.
- The printing and the `main` driver of `sparse_matrix_test.cpp`. Its test cases are replayed as the `Scenarios` methods.

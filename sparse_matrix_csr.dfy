/**
 * The SparseMatrixCSR class: a matrix of `rows` x `cols` exact integers kept
 * in compressed sparse row form. Row r's stored entries sit at positions
 * rowOffsets[r] .. rowOffsets[r+1] of `columnIndices` (their columns) and
 * `nnzValues` (their values). Dimension errors are results, not exceptions.
 */
module SparseMatrix {
  import opened Dense
  import opened CsrFormat
  import opened ColumnCounts
  import opened TransposeSpec

  /** The three ways a call can be rejected for mismatched sizes. */
  datatype DimensionError =
    | RowCountMismatch      // the dense input does not have `rows` rows
    | ColumnCountMismatch   // some row of the dense input does not have `cols` cells
    | VectorSizeMismatch    // the vector does not have `cols` entries

  datatype Outcome = Pass | Fail(error: DimensionError)

  datatype Result<T> = Success(value: T) | Failure(error: DimensionError)

  class SparseMatrixCSR {
    const rows: nat
    const cols: nat
    var nnz: nat
    var rowOffsets: seq<nat>
    var columnIndices: seq<nat>
    var nnzValues: seq<int>

    /** The six fields as a value. */
    function View(): Csr
      reads this
    {
      Csr(rows, cols, nnz, rowOffsets, columnIndices, nnzValues)
    }

    /** The class invariant: the fields form a well-formed CSR layout. */
    ghost predicate Valid()
      reads this
    {
      WellFormed(View())
    }

    /** An r x c matrix with nothing stored: r+1 zero offsets, no entries. */
    constructor(r: nat, c: nat)
      ensures rows == r && cols == c && nnz == 0
      ensures rowOffsets == seq(r + 1, _ => 0) && columnIndices == [] && nnzValues == []
      ensures Valid() && ToDense(View()) == Zero(r, c)
    {
      rows, cols, nnz := r, c, 0;
      rowOffsets := seq(r + 1, _ => 0);
      columnIndices, nnzValues := [], [];
      new;
      EmptyIsZero(r, c);
      ToDenseOfFromDense(Zero(r, c), c);
    }

    /**
     * Replaces the contents by the canonical layout of `dense`, after checking
     * that it has `rows` rows of `cols` cells each; a rejected input leaves
     * the matrix as it was.
     */
    method BuildFromDense(dense: Matrix) returns (outcome: Outcome)
      requires Valid()
      modifies this
      ensures |dense| != rows ==> outcome == Fail(RowCountMismatch) && unchanged(this)
      ensures |dense| == rows && !Shaped(dense, rows, cols) ==>
        outcome == Fail(ColumnCountMismatch) && unchanged(this)
      ensures Shaped(dense, rows, cols) ==> outcome == Pass && View() == FromDense(dense, cols)
      ensures Valid()
      ensures outcome == Pass ==> ToDense(View()) == dense && nnz == |NonZeroCells(dense)|
    {
      outcome := CheckShape(dense, rows, cols);
      if outcome.Fail? {
        return;
      }

      Compress(dense);
      ToDenseOfFromDense(dense, cols);
      NnzCountsNonZeroCells(dense);
      return Pass;
    }

    /**
     * The filling phase of BuildFromDense: clear the entries, then walk the
     * cells row by row, appending each non-zero cell and closing each row
     * with the running entry count as its end offset.
     */
    method Compress(dense: Matrix)
      requires Shaped(dense, rows, cols) && |rowOffsets| == rows + 1
      modifies this
      ensures View() == FromDense(dense, cols)
    {
      nnz := 0;
      columnIndices, nnzValues := [], [];
      rowOffsets := rowOffsets[0 := 0];
      for r := 0 to rows
        invariant |rowOffsets| == rows + 1
        invariant rowOffsets[..r + 1] == OffsetsOf(dense[..r])
        invariant columnIndices == IndicesOf(dense[..r]) && nnzValues == ValuesOf(dense[..r])
        invariant nnz == |columnIndices|
      {
        AppendRow(dense[r]);
        FromDenseStep(dense, r);
        rowOffsets := rowOffsets[r + 1 := nnz];
        assert rowOffsets[..r + 2] == rowOffsets[..r + 1] + [nnz];
      }
      assert dense[..rows] == dense;
      assert rowOffsets == rowOffsets[..rows + 1];
    }

    /**
     * One row of the filling phase: append each non-zero cell of `row`, in
     * ascending column order, to the stored entries.
     */
    method AppendRow(row: seq<int>)
      requires |row| == cols && nnz == |columnIndices|
      modifies this
      ensures rowOffsets == old(rowOffsets)
      ensures columnIndices == old(columnIndices) + NonZeroCols(row)
      ensures nnzValues == old(nnzValues) + NonZeroVals(row)
      ensures nnz == |columnIndices|
    {
      for c := 0 to cols
        invariant rowOffsets == old(rowOffsets)
        invariant columnIndices == old(columnIndices) + NonZeroCols(row[..c])
        invariant nnzValues == old(nnzValues) + NonZeroVals(row[..c])
        invariant nnz == |columnIndices|
      {
        var value := row[c];
        CompressStep(row, c);
        if value != 0 {
          columnIndices := columnIndices + [c];
          nnzValues := nnzValues + [value];
          nnz := nnz + 1;
        }
      }
      assert row[..cols] == row;
    }

    /**
     * The checks BuildFromDense makes before touching anything: `dense` must
     * have `rows` rows, and then every row must have `cols` cells.
     */
    static method CheckShape(dense: Matrix, rows: nat, cols: nat) returns (outcome: Outcome)
      ensures |dense| != rows ==> outcome == Fail(RowCountMismatch)
      ensures |dense| == rows && !Shaped(dense, rows, cols) ==> outcome == Fail(ColumnCountMismatch)
      ensures Shaped(dense, rows, cols) ==> outcome == Pass
    {
      if |dense| != rows {
        return Fail(RowCountMismatch);
      }
      for r := 0 to rows
        invariant forall i :: 0 <= i < r ==> |dense[i]| == cols
      {
        if |dense[r]| != cols {
          return Fail(ColumnCountMismatch);
        }
      }
      return Pass;
    }

    /**
     * The product of the matrix with the vector `x`: entry r is the sum over
     * row r's stored entries of value * x[column], which is the dense dot
     * product of row r with `x`. A vector of the wrong length is rejected.
     */
    method Multiply(x: seq<int>) returns (result: Result<seq<int>>)
      requires Valid()
      ensures |x| != cols <==> result == Failure(VectorSizeMismatch)
      ensures |x| == cols ==> result.Success? && |result.value| == rows
      ensures |x| == cols ==> forall r :: 0 <= r < rows ==>
        result.value[r] == SparseDot(RowIndices(View(), r), RowValues(View(), r), x)
      ensures |x| == cols ==> result.value == Dense.Multiply(ToDense(View()), x)
    {
      if |x| != cols {
        return Failure(VectorSizeMismatch);
      }
      ghost var m := View();
      var y := seq(rows, _ => 0);
      for row := 0 to rows
        invariant |y| == rows
        invariant forall r :: 0 <= r < row ==>
          y[r] == SegmentSum(m, x, r, m.offsets[r + 1]) && y[r] == Dot(ToDense(m)[r], x)
      {
        var sum := 0;
        for idx := rowOffsets[row] to rowOffsets[row + 1]
          invariant sum == SegmentSum(m, x, row, idx)
        {
          var col := columnIndices[idx];
          var value := nnzValues[idx];
          SegmentSumStep(m, x, row, idx);
          sum := sum + value * x[col];
        }
        RowProduct(m, row, x);
        y := y[row := sum];
      }
      return Success(y);
    }

    /**
     * The transpose, built by counting sort: count the entries of each
     * column, turn the counts into offsets by prefix sums, then scatter the
     * entries row by row, each to the next free slot of its column's new row.
     */
    method Transpose() returns (t: SparseMatrixCSR)
      requires Valid()
      ensures fresh(t) && t.Valid()
      ensures t.rows == cols && t.cols == rows && t.nnz == nnz
      ensures PrefixSums(columnIndices, cols, t.rowOffsets)
      ensures t.View() == TransposeOf(View())
    {
      ghost var m := View();
      var colCounts := CountColumns();
      var newOffsets := PrefixSumsOf(colCounts);
      ScatterReady(m, colCounts, newOffsets);
      t := new SparseMatrixCSR(cols, rows);
      var newIndices, newValues := Scatter(rowOffsets, columnIndices, nnzValues, cols, newOffsets, colCounts);
      t.rowOffsets, t.columnIndices, t.nnzValues, t.nnz := newOffsets, newIndices, newValues, nnz;
      assert t.View() == Csr(cols, rows, nnz, newOffsets, newIndices, newValues);
      ScatterDone(m, newOffsets, newIndices, newValues);
    }

    /** The first phase of Transpose: how many entries each column stores. */
    method CountColumns() returns (colCounts: seq<nat>)
      requires Valid()
      ensures |colCounts| == cols
      ensures forall c :: 0 <= c < cols ==> colCounts[c] == multiset(columnIndices)[c]
    {
      colCounts := seq(cols, _ => 0);
      for i := 0 to |columnIndices|
        invariant |colCounts| == cols
        invariant forall c :: 0 <= c < cols ==> colCounts[c] == multiset(columnIndices[..i])[c]
      {
        var col := columnIndices[i];
        assert columnIndices[..i + 1] == columnIndices[..i] + [col];
        colCounts := colCounts[col := colCounts[col] + 1];
      }
      assert columnIndices[..|columnIndices|] == columnIndices;
    }

    /** The second phase of Transpose: the new offsets, as running sums of the column counts. */
    static method PrefixSumsOf(colCounts: seq<nat>) returns (newOffsets: seq<nat>)
      ensures |newOffsets| == |colCounts| + 1 && newOffsets[0] == 0
      ensures forall c :: 0 <= c < |colCounts| ==> newOffsets[c + 1] == newOffsets[c] + colCounts[c]
    {
      newOffsets := seq(|colCounts| + 1, _ => 0);
      for i := 0 to |colCounts|
        invariant |newOffsets| == |colCounts| + 1 && newOffsets[0] == 0
        invariant forall c :: 0 <= c < i ==> newOffsets[c + 1] == newOffsets[c] + colCounts[c]
      {
        newOffsets := newOffsets[i + 1 := newOffsets[i] + colCounts[i]];
      }
    }

    /**
     * The third phase of Transpose: every stored entry (row, col, value),
     * taken row by row from `offsets`, `indices` and `values`, is written as
     * (col, row, value) at the next free slot of new row col, found from the
     * per-column counters that count down the entries still to place.
     */
    static method Scatter(offsets: seq<nat>, indices: seq<nat>, values: seq<int>, cols: nat,
                          newOffsets: seq<nat>, colCounts: seq<nat>)
      returns (newIndices: seq<nat>, newValues: seq<int>)
      requires |offsets| > 0 && offsets[0] == 0 && Monotone(offsets)
      requires offsets[|offsets| - 1] == |indices| == |values|
      requires CountingSetup(indices, cols, newOffsets, colCounts)
      ensures Scattered(indices, RowIds(offsets), newOffsets, newIndices, |indices|)
      ensures Scattered(indices, values, newOffsets, newValues, |indices|)
    {
      var rows := |offsets| - 1;
      newIndices := seq(|indices|, _ => 0);
      newValues := seq(|indices|, _ => 0);
      var counters: seq<int> := colCounts;
      ghost var ids := RowIds(offsets);
      ScatterBegin(indices, cols, ids, values, newOffsets, colCounts, newIndices, newValues);
      for row := 0 to rows
        invariant ScatterState(indices, ids, values, newOffsets, colCounts, counters, newIndices, newValues, offsets[row])
      {
        forall q | offsets[row] <= q < offsets[row + 1] ensures ids[q] == row {
          RowIdsSpec(offsets, row, q);
        }
        counters, newIndices, newValues := ScatterRow(offsets, indices, values, cols, newOffsets, colCounts,
                                                      row, ids, counters, newIndices, newValues);
      }
    }

    /**
     * One row of the scatter: the entries of old row `row`, in storage order;
     * `ids` gives the old row of every position, and is `row` on this row's.
     */
    static method ScatterRow(offsets: seq<nat>, indices: seq<nat>, values: seq<int>, cols: nat,
                             newOffsets: seq<nat>, colCounts: seq<nat>, row: nat, ghost ids: seq<nat>,
                             counters0: seq<int>, newIndices0: seq<nat>, newValues0: seq<int>)
      returns (counters: seq<int>, newIndices: seq<nat>, newValues: seq<int>)
      requires row + 1 < |offsets| && offsets[row] <= offsets[row + 1] <= |indices|
      requires CountingSetup(indices, cols, newOffsets, colCounts)
      requires ScatterState(indices, ids, values, newOffsets, colCounts,
                            counters0, newIndices0, newValues0, offsets[row])
      requires forall q :: offsets[row] <= q < offsets[row + 1] ==> ids[q] == row
      ensures ScatterState(indices, ids, values, newOffsets, colCounts,
                           counters, newIndices, newValues, offsets[row + 1])
    {
      counters, newIndices, newValues := counters0, newIndices0, newValues0;
      for idx := offsets[row] to offsets[row + 1]
        invariant ScatterState(indices, ids, values, newOffsets, colCounts, counters, newIndices, newValues, idx)
      {
        counters, newIndices, newValues := PlaceEntry(indices, values, cols, newOffsets, colCounts, row, idx, ids,
                                                      counters, newIndices, newValues);
      }
    }

    /**
     * The body of the scatter: entry idx, of old row `row`, is written as
     * (column, row, value) at its column's next free slot, and that column's
     * counter goes down by one.
     */
    static method PlaceEntry(indices: seq<nat>, values: seq<int>, cols: nat, newOffsets: seq<nat>,
                             colCounts: seq<nat>, row: nat, idx: nat, ghost ids: seq<nat>,
                             counters0: seq<int>, newIndices0: seq<nat>, newValues0: seq<int>)
      returns (counters: seq<int>, newIndices: seq<nat>, newValues: seq<int>)
      requires CountingSetup(indices, cols, newOffsets, colCounts) && idx < |indices|
      requires ScatterState(indices, ids, values, newOffsets, colCounts, counters0, newIndices0, newValues0, idx)
      requires ids[idx] == row
      ensures ScatterState(indices, ids, values, newOffsets, colCounts, counters, newIndices, newValues, idx + 1)
    {
      var col := indices[idx];
      var value := values[idx];
      var newRow, newCol := col, row;
      ScatterEntry(indices, cols, ids, values, newOffsets, colCounts, counters0,
                   newIndices0, newValues0, idx);
      var newPosition := newOffsets[newRow] + (colCounts[newRow] - counters0[newRow]);
      newIndices := newIndices0[newPosition := newCol];
      newValues := newValues0[newPosition := value];
      counters := counters0[newRow := counters0[newRow] - 1];
    }

    /** The number of rows; the invariant makes it one less than the number of offsets. */
    function GetRows(): (n: nat)
      reads this
      ensures Valid() ==> n + 1 == |rowOffsets| && |ToDense(View())| == n
    {
      rows
    }

    /** The number of columns; every stored column index is below it. */
    function GetCols(): (n: nat)
      reads this
      ensures Valid() ==> forall i :: 0 <= i < |columnIndices| ==> columnIndices[i] < n
    {
      cols
    }

    /** The number of stored entries: the length of both entry arrays and the last offset. */
    function GetNNZ(): (n: nat)
      reads this
      ensures Valid() ==> n == |columnIndices| == |nnzValues| == rowOffsets[rows]
    {
      nnz
    }
  }
}

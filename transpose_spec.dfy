/**
 * What transposition of a CSR layout must produce, its algebraic properties,
 * and the facts the counting-sort transpose relies on: the new offsets are
 * prefix sums of the per-column counts, and scattering the entries in storage
 * order fills each new row with the rows of the old column, ascending.
 */
module TransposeSpec {
  import opened Dense
  import opened CsrFormat
  import opened ColumnCounts

  /** The canonical layout of the transposed matrix. */
  function TransposeOf(m: Csr): (t: Csr)
    requires WellFormed(m)
    ensures WellFormed(t) && t.rows == m.cols && t.cols == m.rows
    ensures ToDense(t) == Transpose(ToDense(m), m.cols)
  {
    var d := Transpose(ToDense(m), m.cols);
    ToDenseOfFromDense(d, m.rows);
    FromDense(d, m.rows)
  }

  /** The transpose stores (c, r, v) exactly when the matrix stores (r, c, v). */
  lemma TransposeStores(m: Csr, r: nat, c: nat, v: int)
    requires WellFormed(m)
    ensures Stores(TransposeOf(m), c, r, v) <==> Stores(m, r, c, v)
  {
    var t := TransposeOf(m);
    StoresIffAt(t, c, r, v);
    StoresIffAt(m, r, c, v);
    if r < m.rows && c < m.cols {
      assert At(t, c, r) == ToDense(t)[c][r] == ToDense(m)[r][c] == At(m, r, c);
    }
  }

  /** Transposing twice gives back the very same layout. */
  lemma TransposeInvolution(m: Csr)
    requires WellFormed(m)
    ensures TransposeOf(TransposeOf(m)) == m
  {
    TransposeTwice(ToDense(m), m.cols);
    FromDenseOfToDense(m);
  }

  ghost function Swapped(cells: set<(nat, nat)>): set<(nat, nat)> {
    set p | p in cells :: (p.1, p.0)
  }

  lemma SwappedCount(cells: set<(nat, nat)>)
    ensures |Swapped(cells)| == |cells|
    decreases |cells|
  {
    if cells != {} {
      var p :| p in cells;
      var rest := cells - {p};
      SwappedCount(rest);
      assert Swapped(cells) == Swapped(rest) + {(p.1, p.0)};
      assert (p.1, p.0) !in Swapped(rest);
    }
  }

  /** The transpose stores as many entries as the matrix. */
  lemma TransposeKeepsNnz(m: Csr)
    requires WellFormed(m)
    ensures TransposeOf(m).nnz == m.nnz
  {
    var d := ToDense(m);
    var td := Transpose(d, m.cols);
    FromDenseOfToDense(m);
    NnzCountsNonZeroCells(d);
    NnzCountsNonZeroCells(td);
    forall p | p in NonZeroCells(td) ensures p in Swapped(NonZeroCells(d)) {
      assert (p.1, p.0) in NonZeroCells(d);
    }
    forall p | p in Swapped(NonZeroCells(d)) ensures p in NonZeroCells(td) {
      assert (p.1, p.0) in NonZeroCells(d);
    }
    assert NonZeroCells(td) == Swapped(NonZeroCells(d));
    SwappedCount(NonZeroCells(d));
  }

  // ---------------------------------------------------------------------
  // Where each stored entry lands

  /**
   * Row c of the transpose, as far as the first k stored entries go: the rows
   * and values of the entries in column c among them, in storage order.
   */
  function ColumnRows(m: Csr, c: nat, k: nat): seq<nat>
    requires WellFormed(m) && k <= m.nnz
  {
    Collect(m.indices, c, k, RowIds(m.offsets))
  }

  function ColumnValues(m: Csr, c: nat, k: nat): seq<int>
    requires WellFormed(m) && k <= m.nnz
  {
    Collect(m.indices, c, k, m.values)
  }

  /**
   * Column c of the dense matrix, over its first r rows, compresses to the
   * rows and values that the entries of column c stored for those rows carry.
   */
  lemma {:induction false} ColumnCollect(m: Csr, c: nat, r: nat)
    requires WellFormed(m) && c < m.cols && r <= m.rows
    ensures ColumnRows(m, c, m.offsets[r]) == NonZeroCols(Transpose(ToDense(m), m.cols)[c][..r])
    ensures ColumnValues(m, c, m.offsets[r]) == NonZeroVals(Transpose(ToDense(m), m.cols)[c][..r])
  {
    var col := Transpose(ToDense(m), m.cols)[c];
    if r == 0 {
      assert col[..0] == [];
    } else {
      var p := r - 1;
      ColumnCollect(m, c, p);
      assert col[..r][..p] == col[..p];
      assert col[..r][p] == At(m, p, c);
      if c in RowIndices(m, p) {
        ColumnCollectStored(m, c, p);
      } else {
        ColumnCollectAbsent(m, c, p);
      }
    }
  }

  /** Row p stores column c: one entry is added, carrying row p and the non-zero cell. */
  lemma ColumnCollectStored(m: Csr, c: nat, p: nat)
    requires WellFormed(m) && c < m.cols && p < m.rows && c in RowIndices(m, p)
    ensures At(m, p, c) != 0
    ensures ColumnRows(m, c, m.offsets[p + 1]) == ColumnRows(m, c, m.offsets[p]) + [p]
    ensures ColumnValues(m, c, m.offsets[p + 1]) == ColumnValues(m, c, m.offsets[p]) + [At(m, p, c)]
  {
    var lo, hi := m.offsets[p], m.offsets[p + 1];
    var j :| 0 <= j < |RowIndices(m, p)| && RowIndices(m, p)[j] == c;
    var q := lo + j;
    assert m.indices[q] == c;
    StoredEntryIsAt(m, p, q);
    OnlyPosition(m, p, j);
    CollectOne(m.indices, c, lo, q, hi, RowIds(m.offsets));
    CollectOne(m.indices, c, lo, q, hi, m.values);
    RowIdsSpec(m.offsets, p, q);
  }

  /** Entry j of row p's segment is the only one of the segment in its column. */
  lemma OnlyPosition(m: Csr, p: nat, j: nat)
    requires WellFormed(m) && p < m.rows && j < m.offsets[p + 1] - m.offsets[p]
    ensures var lo := m.offsets[p];
      forall q :: lo <= q < m.offsets[p + 1] && q != lo + j ==> m.indices[q] != m.indices[lo + j]
  {
    var lo := m.offsets[p];
    var cs := RowIndices(m, p);
    forall q | lo <= q < m.offsets[p + 1] && q != lo + j ensures m.indices[q] != m.indices[lo + j] {
      assert cs[q - lo] == m.indices[q] && cs[j] == m.indices[lo + j];
      assert Increasing(cs);
    }
  }

  /** Row p stores nothing in column c: nothing is added and the cell is 0. */
  lemma ColumnCollectAbsent(m: Csr, c: nat, p: nat)
    requires WellFormed(m) && c < m.cols && p < m.rows && c !in RowIndices(m, p)
    ensures At(m, p, c) == 0
    ensures ColumnRows(m, c, m.offsets[p + 1]) == ColumnRows(m, c, m.offsets[p])
    ensures ColumnValues(m, c, m.offsets[p + 1]) == ColumnValues(m, c, m.offsets[p])
  {
    var lo, hi := m.offsets[p], m.offsets[p + 1];
    forall q | lo <= q < hi ensures m.indices[q] != c {
      assert RowIndices(m, p)[q - lo] == m.indices[q];
    }
    CollectNone(m.indices, c, lo, hi, RowIds(m.offsets));
    CollectNone(m.indices, c, lo, hi, m.values);
    LookupAbsent(RowIndices(m, p), RowValues(m, p), c);
  }

  /** How many entries of column c the first k stored entries hold. */
  lemma CountsSoFar(m: Csr, c: nat, k: nat)
    requires WellFormed(m) && k <= m.nnz
    ensures |ColumnRows(m, c, k)| == |ColumnValues(m, c, k)| == multiset(m.indices[..k])[c]
  {
    CollectCount(m.indices, c, k, RowIds(m.offsets));
    CollectCount(m.indices, c, k, m.values);
  }

  /**
   * The column counts and their running sums are what the scatter starts
   * from, and the old offsets delimit the old rows.
   */
  lemma ScatterReady(m: Csr, counts: seq<nat>, no: seq<nat>)
    requires WellFormed(m)
    requires |counts| == m.cols && forall c :: 0 <= c < m.cols ==> counts[c] == multiset(m.indices)[c]
    requires |no| == |counts| + 1 && no[0] == 0
    requires forall c :: 0 <= c < |counts| ==> no[c + 1] == no[c] + counts[c]
    ensures |m.offsets| > 0 && m.offsets[0] == 0 && Monotone(m.offsets)
    ensures m.offsets[|m.offsets| - 1] == |m.indices| == |m.values|
    ensures CountingSetup(m.indices, m.cols, no, counts)
  {
  }

  /** Once every stored entry is scattered, the new arrays are the canonical layout of the transpose. */
  lemma ScatterDone(m: Csr, no: seq<nat>, dest: seq<nat>, destV: seq<int>)
    requires WellFormed(m) && PrefixSums(m.indices, m.cols, no)
    requires Scattered(m.indices, RowIds(m.offsets), no, dest, m.nnz)
    requires Scattered(m.indices, m.values, no, destV, m.nnz)
    ensures Csr(m.cols, m.rows, m.nnz, no, dest, destV) == TransposeOf(m)
    ensures WellFormed(Csr(m.cols, m.rows, m.nnz, no, dest, destV))
  {
    var td := Transpose(ToDense(m), m.cols);
    PrefixSumsShape(m.indices, m.cols, no);
    forall c | 0 <= c < m.cols
      ensures dest[no[c]..no[c + 1]] == NonZeroCols(td[c])
      ensures destV[no[c]..no[c + 1]] == NonZeroVals(td[c])
    {
      ScatteredColumn(m, no, dest, destV, c);
    }
    SegmentsDetermine(Csr(m.cols, m.rows, m.nnz, no, dest, destV), td);
  }

  /** Once every stored entry is scattered, new row c is the compression of column c. */
  lemma ScatteredColumn(m: Csr, no: seq<nat>, dest: seq<nat>, destV: seq<int>, c: nat)
    requires WellFormed(m) && PrefixSums(m.indices, m.cols, no) && c < m.cols
    requires Scattered(m.indices, RowIds(m.offsets), no, dest, m.nnz)
    requires Scattered(m.indices, m.values, no, destV, m.nnz)
    ensures no[c] <= no[c + 1] <= |dest| == |destV|
    ensures dest[no[c]..no[c + 1]] == NonZeroCols(Transpose(ToDense(m), m.cols)[c])
    ensures destV[no[c]..no[c + 1]] == NonZeroVals(Transpose(ToDense(m), m.cols)[c])
  {
    var td := Transpose(ToDense(m), m.cols);
    ScatteredRun(m.indices, m.cols, RowIds(m.offsets), no, dest, c);
    ScatteredRun(m.indices, m.cols, m.values, no, destV, c);
    ColumnCollect(m, c, m.rows);
    assert td[c][..m.rows] == td[c];
  }
}

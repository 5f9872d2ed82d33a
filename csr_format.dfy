/**
 * The compressed sparse row layout as a value: the three arrays, their
 * well-formedness invariant, the dense matrix they stand for, and the
 * canonical layout of a dense matrix.
 */
module CsrFormat {
  import opened Dense
  import opened SeqFacts

  /**
   * The six fields of a CSR matrix: row `r`'s entries sit at positions
   * offsets[r] .. offsets[r+1] of `indices` (their columns) and `values`.
   */
  datatype Csr = Csr(rows: nat, cols: nat, nnz: nat,
                     offsets: seq<nat>, indices: seq<nat>, values: seq<int>)

  predicate Increasing(s: seq<nat>) {
    forall i, j :: 0 <= i < j < |s| ==> s[i] < s[j]
  }

  /**
   * The layout invariant: `offsets` has rows+1 entries, starts at 0, never
   * decreases and ends at nnz; `indices` and `values` have nnz entries; every
   * column index is below `cols`; columns strictly increase inside each row;
   * no stored value is zero.
   */
  predicate WellFormed(m: Csr) {
    && |m.offsets| == m.rows + 1
    && |m.indices| == m.nnz && |m.values| == m.nnz
    && m.offsets[0] == 0 && m.offsets[m.rows] == m.nnz
    && (forall r, s :: 0 <= r <= s <= m.rows ==> m.offsets[r] <= m.offsets[s])
    && (forall i :: 0 <= i < m.nnz ==> m.indices[i] < m.cols && m.values[i] != 0)
    && (forall r :: 0 <= r < m.rows ==> Increasing(m.indices[m.offsets[r]..m.offsets[r + 1]]))
  }

  /** The columns stored for row `r`. */
  function RowIndices(m: Csr, r: nat): seq<nat>
    requires WellFormed(m) && r < m.rows
  {
    m.indices[m.offsets[r]..m.offsets[r + 1]]
  }

  /** The values stored for row `r`, parallel to `RowIndices(m, r)`. */
  function RowValues(m: Csr, r: nat): seq<int>
    requires WellFormed(m) && r < m.rows
  {
    m.values[m.offsets[r]..m.offsets[r + 1]]
  }

  /** The value a row segment stores for column `c`, or 0 when it stores none. */
  function Lookup(cs: seq<nat>, vs: seq<int>, c: int): int
    requires |cs| == |vs|
  {
    if |cs| == 0 then 0
    else if cs[|cs| - 1] == c then vs[|vs| - 1]
    else Lookup(cs[..|cs| - 1], vs[..|vs| - 1], c)
  }

  /** The matrix element at row `r`, column `c`. */
  function At(m: Csr, r: nat, c: nat): int
    requires WellFormed(m) && r < m.rows
  {
    Lookup(RowIndices(m, r), RowValues(m, r), c)
  }

  /** The dense matrix a well-formed layout stands for. */
  function ToDense(m: Csr): (d: Matrix)
    requires WellFormed(m)
    ensures Shaped(d, m.rows, m.cols)
  {
    seq(m.rows, r requires 0 <= r < m.rows => seq(m.cols, c requires 0 <= c < m.cols => At(m, r, c)))
  }

  /** The layout stores the triple (r, c, v). */
  predicate Stores(m: Csr, r: nat, c: nat, v: int)
    requires WellFormed(m)
  {
    r < m.rows && exists i :: m.offsets[r] <= i < m.offsets[r + 1] && m.indices[i] == c && m.values[i] == v
  }

  /** The layout of a freshly constructed r-by-c matrix: r+1 zero offsets, nothing stored. */
  function Empty(rows: nat, cols: nat): Csr {
    Csr(rows, cols, 0, seq(rows + 1, _ => 0), [], [])
  }

  // ---------------------------------------------------------------------
  // The canonical layout of a dense matrix: rows scanned top to bottom,
  // each row's non-zero cells in ascending column order.

  function IndicesOf(d: Matrix): seq<nat> {
    if |d| == 0 then [] else IndicesOf(d[..|d| - 1]) + NonZeroCols(d[|d| - 1])
  }

  function ValuesOf(d: Matrix): (vs: seq<int>)
    ensures |vs| == |IndicesOf(d)|
  {
    if |d| == 0 then [] else ValuesOf(d[..|d| - 1]) + NonZeroVals(d[|d| - 1])
  }

  /** Running counts of stored entries after each row. */
  function OffsetsOf(d: Matrix): (os: seq<nat>)
    ensures |os| == |d| + 1 && os[0] == 0 && os[|d|] == |IndicesOf(d)|
  {
    if |d| == 0 then [0] else OffsetsOf(d[..|d| - 1]) + [|IndicesOf(d)|]
  }

  function FromDense(d: Matrix, cols: nat): Csr {
    Csr(|d|, cols, |IndicesOf(d)|, OffsetsOf(d), IndicesOf(d), ValuesOf(d))
  }

  // ---------------------------------------------------------------------
  // Lookup in a row segment

  lemma {:induction false} LookupAbsent(cs: seq<nat>, vs: seq<int>, c: int)
    requires |cs| == |vs| && c !in cs
    ensures Lookup(cs, vs, c) == 0
  {
    if |cs| > 0 {
      var n := |cs| - 1;
      LookupAbsent(cs[..n], vs[..n], c);
    }
  }

  lemma {:induction false} LookupFound(cs: seq<nat>, vs: seq<int>, i: nat)
    requires |cs| == |vs| && Increasing(cs) && i < |cs|
    ensures Lookup(cs, vs, cs[i]) == vs[i]
  {
    var n := |cs| - 1;
    if i < n {
      assert cs[n] != cs[i];
      LookupFound(cs[..n], vs[..n], i);
    }
  }

  /** In a compressed row, looking up column c gives back the row's cell c. */
  lemma {:induction false} LookupCompressed(row: seq<int>, c: nat)
    requires c < |row|
    ensures Lookup(NonZeroCols(row), NonZeroVals(row), c) == row[c]
  {
    var n := |row| - 1;
    var front := row[..n];
    var cs, vs := NonZeroCols(row), NonZeroVals(row);
    if row[n] != 0 {
      assert cs == NonZeroCols(front) + [n] && vs == NonZeroVals(front) + [row[n]];
      if c < n {
        assert cs[..|cs| - 1] == NonZeroCols(front) && vs[..|vs| - 1] == NonZeroVals(front);
        LookupCompressed(front, c);
      }
    } else {
      assert cs == NonZeroCols(front) && vs == NonZeroVals(front);
      if c < n {
        LookupCompressed(front, c);
      } else {
        NonZeroColsSpec(front);
        assert c !in NonZeroCols(front);
        LookupAbsent(cs, vs, c);
      }
    }
  }

  /**
   * A row segment whose columns strictly increase below n and whose values
   * are non-zero is the compression of the n-cell row it stands for.
   */
  lemma {:induction false} CompressLookup(cs: seq<nat>, vs: seq<int>, n: nat)
    requires |cs| == |vs| && Increasing(cs) && (|cs| == 0 || cs[|cs| - 1] < n)
    requires forall i :: 0 <= i < |vs| ==> vs[i] != 0
    ensures NonZeroCols(seq(n, c => Lookup(cs, vs, c))) == cs
    ensures NonZeroVals(seq(n, c => Lookup(cs, vs, c))) == vs
    decreases n, 1
  {
    if n == 0 {
      assert cs == [];
    } else if |cs| > 0 && cs[|cs| - 1] == n - 1 {
      CompressLookupLastStored(cs, vs, n);
    } else {
      assert |cs| == 0 || cs[|cs| - 1] < n - 1;
      CompressLookupLastAbsent(cs, vs, n);
    }
  }

  /** CompressLookup when the segment's last entry is in the row's last column. */
  lemma {:induction false} CompressLookupLastStored(cs: seq<nat>, vs: seq<int>, n: nat)
    requires |cs| == |vs| && Increasing(cs)
    requires forall i :: 0 <= i < |vs| ==> vs[i] != 0
    requires n > 0 && |cs| > 0 && cs[|cs| - 1] == n - 1
    ensures NonZeroCols(seq(n, c => Lookup(cs, vs, c))) == cs
    ensures NonZeroVals(seq(n, c => Lookup(cs, vs, c))) == vs
    decreases n, 0
  {
    var row := seq(n, c => Lookup(cs, vs, c));
    var k, m := n - 1, |cs| - 1;
    var cs', vs' := cs[..m], vs[..m];
    assert m == 0 || cs'[m - 1] < k;
    LookupRowPrefix(cs, vs, k);
    LookupSkipsLast(cs, vs, k);
    CompressLookup(cs', vs', k);
    assert row[k] == vs[m] != 0;
    SplitLast(cs);
    SplitLast(vs);
  }

  /** The cells of a looked-up row below column k do not depend on the cells from k on. */
  lemma LookupRowPrefix(cs: seq<nat>, vs: seq<int>, k: nat)
    requires |cs| == |vs|
    ensures seq(k + 1, c => Lookup(cs, vs, c))[..k] == seq(k, c => Lookup(cs, vs, c))
  {
  }

  /** Below the column of a segment's last entry, the lookup ignores that entry. */
  lemma LookupSkipsLast(cs: seq<nat>, vs: seq<int>, k: nat)
    requires |cs| == |vs| && |cs| > 0 && cs[|cs| - 1] >= k
    ensures seq(k, c => Lookup(cs, vs, c)) == seq(k, c => Lookup(cs[..|cs| - 1], vs[..|vs| - 1], c))
  {
  }

  /** CompressLookup when the row's last column is not stored. */
  lemma {:induction false} CompressLookupLastAbsent(cs: seq<nat>, vs: seq<int>, n: nat)
    requires |cs| == |vs| && Increasing(cs) && (|cs| == 0 || cs[|cs| - 1] < n - 1)
    requires forall i :: 0 <= i < |vs| ==> vs[i] != 0
    requires n > 0
    ensures NonZeroCols(seq(n, c => Lookup(cs, vs, c))) == cs
    ensures NonZeroVals(seq(n, c => Lookup(cs, vs, c))) == vs
    decreases n, 0
  {
    var row := seq(n, c => Lookup(cs, vs, c));
    var k := n - 1;
    forall i | 0 <= i < |cs| ensures cs[i] < k {
      if i < |cs| - 1 { assert cs[i] < cs[|cs| - 1]; }
    }
    LookupAbsent(cs, vs, k);
    LookupRowPrefix(cs, vs, k);
    CompressLookup(cs, vs, k);
  }

  // ---------------------------------------------------------------------
  // Properties of the canonical layout

  /**
   * The arrays of the canonical layout: offsets never decrease, every column
   * index is below the row width and no stored value is zero.
   */
  lemma {:induction false} FromDenseArrays(d: Matrix, cols: nat)
    requires forall r :: 0 <= r < |d| ==> |d[r]| == cols
    ensures forall r, s :: 0 <= r <= s <= |d| ==> OffsetsOf(d)[r] <= OffsetsOf(d)[s]
    ensures forall i :: 0 <= i < |IndicesOf(d)| ==> IndicesOf(d)[i] < cols && ValuesOf(d)[i] != 0
  {
    if |d| > 0 {
      var n := |d| - 1;
      var front := d[..n];
      FromDenseArrays(front, cols);
      NonZeroColsSpec(d[n]);
      assert OffsetsOf(d) == OffsetsOf(front) + [|IndicesOf(d)|];
      assert IndicesOf(d) == IndicesOf(front) + NonZeroCols(d[n]);
      assert ValuesOf(d) == ValuesOf(front) + NonZeroVals(d[n]);
    }
  }

  /** Row r's segment of the canonical layout is the compression of dense row r. */
  lemma {:induction false} FromDenseSegment(d: Matrix, r: nat)
    requires r < |d|
    ensures OffsetsOf(d)[r] <= OffsetsOf(d)[r + 1] <= |IndicesOf(d)|
    ensures IndicesOf(d)[OffsetsOf(d)[r]..OffsetsOf(d)[r + 1]] == NonZeroCols(d[r])
    ensures ValuesOf(d)[OffsetsOf(d)[r]..OffsetsOf(d)[r + 1]] == NonZeroVals(d[r])
  {
    var n := |d| - 1;
    var front := d[..n];
    var os, ix, vs := OffsetsOf(d), IndicesOf(d), ValuesOf(d);
    var os', ix', vs' := OffsetsOf(front), IndicesOf(front), ValuesOf(front);
    assert os == os' + [|ix|] && ix == ix' + NonZeroCols(d[n]) && vs == vs' + NonZeroVals(d[n]);
    if r < n {
      FromDenseSegment(front, r);
      assert front[r] == d[r];
      assert os[r] == os'[r] && os[r + 1] == os'[r + 1];
      SliceOfConcat(ix', NonZeroCols(d[n]), os[r], os[r + 1]);
      SliceOfConcat(vs', NonZeroVals(d[n]), os[r], os[r + 1]);
    } else {
      assert os[r] == |ix'| && os[r + 1] == |ix|;
      SliceOfConcat(ix', NonZeroCols(d[n]), |ix'|, |ix|);
      SliceOfConcat(vs', NonZeroVals(d[n]), |vs'|, |vs|);
    }
  }

  /** The canonical layout of a shaped dense matrix is well formed. */
  lemma FromDenseWellFormed(d: Matrix, cols: nat)
    requires Shaped(d, |d|, cols)
    ensures WellFormed(FromDense(d, cols))
  {
    var m := FromDense(d, cols);
    FromDenseArrays(d, cols);
    forall r | 0 <= r < |d| ensures Increasing(m.indices[m.offsets[r]..m.offsets[r + 1]]) {
      FromDenseSegment(d, r);
      NonZeroColsSpec(d[r]);
    }
  }

  /**
   * A layout whose offsets start at 0, never decrease and end at its length,
   * and whose row segments are the compressions of the rows of `d`, is the
   * canonical layout of `d`.
   */
  lemma {:induction false} SegmentsDetermine(m: Csr, d: Matrix)
    requires m.rows == |d| && |m.offsets| == |d| + 1
    requires m.offsets[0] == 0 && m.offsets[|d|] == m.nnz == |m.indices| == |m.values|
    requires forall r, s :: 0 <= r <= s <= |d| ==> m.offsets[r] <= m.offsets[s]
    requires forall r :: 0 <= r < |d| ==>
      m.indices[m.offsets[r]..m.offsets[r + 1]] == NonZeroCols(d[r]) &&
      m.values[m.offsets[r]..m.offsets[r + 1]] == NonZeroVals(d[r])
    ensures m == FromDense(d, m.cols)
    decreases |d|
  {
    if |d| == 0 {
      assert m.offsets == [0];
    } else {
      var n := |d| - 1;
      var front := d[..n];
      var k := m.offsets[n];
      var m' := Csr(n, m.cols, k, m.offsets[..n + 1], m.indices[..k], m.values[..k]);
      PrefixSegments(m, d);
      SegmentsDetermine(m', front);
      assert m.indices[k..] == m.indices[k..m.offsets[n + 1]];
      assert m.values[k..] == m.values[k..m.offsets[n + 1]];
      LastRowCompletes(m, d);
    }
  }

  /** Dropping the last row keeps the other rows' segments. */
  lemma PrefixSegments(m: Csr, d: Matrix)
    requires |d| > 0 && |m.offsets| == |d| + 1 && m.offsets[|d|] == |m.indices| == |m.values|
    requires forall r, s :: 0 <= r <= s <= |d| ==> m.offsets[r] <= m.offsets[s]
    requires forall r :: 0 <= r < |d| ==>
      m.indices[m.offsets[r]..m.offsets[r + 1]] == NonZeroCols(d[r]) &&
      m.values[m.offsets[r]..m.offsets[r + 1]] == NonZeroVals(d[r])
    ensures var n, k := |d| - 1, m.offsets[|d| - 1];
      forall r :: 0 <= r < n ==>
        m.indices[..k][m.offsets[r]..m.offsets[r + 1]] == NonZeroCols(d[..n][r]) &&
        m.values[..k][m.offsets[r]..m.offsets[r + 1]] == NonZeroVals(d[..n][r])
  {
    var n, k := |d| - 1, m.offsets[|d| - 1];
    forall r | 0 <= r < n
      ensures m.indices[..k][m.offsets[r]..m.offsets[r + 1]] == NonZeroCols(d[..n][r])
      ensures m.values[..k][m.offsets[r]..m.offsets[r + 1]] == NonZeroVals(d[..n][r])
    {
      SliceOfPrefix(m.indices, k, m.offsets[r], m.offsets[r + 1]);
      SliceOfPrefix(m.values, k, m.offsets[r], m.offsets[r + 1]);
    }
  }

  /** The inductive step of SegmentsDetermine: the layout of all rows but the last, plus the last row. */
  lemma LastRowCompletes(m: Csr, d: Matrix)
    requires |d| > 0 && m.rows == |d| && |m.offsets| == |d| + 1
    requires m.offsets[|d|] == m.nnz == |m.indices| == |m.values|
    requires m.offsets[|d| - 1] <= m.offsets[|d|]
    requires m.offsets[..|d|] == OffsetsOf(d[..|d| - 1])
    requires m.indices[..m.offsets[|d| - 1]] == IndicesOf(d[..|d| - 1])
    requires m.values[..m.offsets[|d| - 1]] == ValuesOf(d[..|d| - 1])
    requires m.indices[m.offsets[|d| - 1]..] == NonZeroCols(d[|d| - 1])
    requires m.values[m.offsets[|d| - 1]..] == NonZeroVals(d[|d| - 1])
    ensures m == FromDense(d, m.cols)
  {
    var n := |d| - 1;
    var k := m.offsets[n];
    SplitAt(m.indices, k);
    SplitAt(m.values, k);
    SplitLast(m.offsets);
    assert IndicesOf(d) == IndicesOf(d[..n]) + NonZeroCols(d[n]);
    assert ValuesOf(d) == ValuesOf(d[..n]) + NonZeroVals(d[n]);
    assert OffsetsOf(d) == OffsetsOf(d[..n]) + [|IndicesOf(d)|];
  }

  /** Adding row r to the rows before it appends its compression and its new end offset. */
  lemma FromDenseStep(d: Matrix, r: nat)
    requires r < |d|
    ensures IndicesOf(d[..r + 1]) == IndicesOf(d[..r]) + NonZeroCols(d[r])
    ensures ValuesOf(d[..r + 1]) == ValuesOf(d[..r]) + NonZeroVals(d[r])
    ensures OffsetsOf(d[..r + 1]) == OffsetsOf(d[..r]) + [|IndicesOf(d[..r + 1])|]
  {
    assert d[..r + 1][..r] == d[..r];
  }

  /** Reading back the canonical layout of a dense matrix gives the matrix. */
  lemma ToDenseOfFromDense(d: Matrix, cols: nat)
    requires Shaped(d, |d|, cols)
    ensures WellFormed(FromDense(d, cols)) && ToDense(FromDense(d, cols)) == d
  {
    var m := FromDense(d, cols);
    FromDenseWellFormed(d, cols);
    forall r, c | 0 <= r < |d| && 0 <= c < cols ensures ToDense(m)[r][c] == d[r][c] {
      FromDenseSegment(d, r);
      LookupCompressed(d[r], c);
    }
    assert forall r | 0 <= r < |d| :: ToDense(m)[r] == d[r];
  }

  /** Every well-formed layout is the canonical layout of the dense matrix it stands for. */
  lemma FromDenseOfToDense(m: Csr)
    requires WellFormed(m)
    ensures FromDense(ToDense(m), m.cols) == m
  {
    var d := ToDense(m);
    forall r | 0 <= r < m.rows
      ensures RowIndices(m, r) == NonZeroCols(d[r]) && RowValues(m, r) == NonZeroVals(d[r])
    {
      var cs, vs := RowIndices(m, r), RowValues(m, r);
      CompressLookup(cs, vs, m.cols);
      assert d[r] == seq(m.cols, c => Lookup(cs, vs, c));
    }
    SegmentsDetermine(m, d);
  }

  /** A row segment of a well-formed layout is the compression of its dense row. */
  lemma RowIsCompressed(m: Csr, r: nat)
    requires WellFormed(m) && r < m.rows
    ensures RowIndices(m, r) == NonZeroCols(ToDense(m)[r])
    ensures RowValues(m, r) == NonZeroVals(ToDense(m)[r])
  {
    var cs, vs := RowIndices(m, r), RowValues(m, r);
    CompressLookup(cs, vs, m.cols);
    assert ToDense(m)[r] == seq(m.cols, c => Lookup(cs, vs, c));
  }

  /** A well-formed layout stores (r, c, v) exactly when its element (r, c) is v and v is not 0. */
  lemma StoresIffAt(m: Csr, r: nat, c: nat, v: int)
    requires WellFormed(m)
    ensures Stores(m, r, c, v) <==> r < m.rows && c < m.cols && At(m, r, c) == v && v != 0
  {
    if r < m.rows {
      if Stores(m, r, c, v) {
        var i :| m.offsets[r] <= i < m.offsets[r + 1] && m.indices[i] == c && m.values[i] == v;
        StoredEntryIsAt(m, r, i);
      }
      if c < m.cols && At(m, r, c) == v && v != 0 {
        NonZeroIsStored(m, r, c);
      }
    }
  }

  /** Every entry stored in row r is the element of row r at its column, and it is not 0. */
  lemma StoredEntryIsAt(m: Csr, r: nat, i: nat)
    requires WellFormed(m) && r < m.rows && m.offsets[r] <= i < m.offsets[r + 1]
    ensures m.indices[i] < m.cols && m.values[i] != 0 && At(m, r, m.indices[i]) == m.values[i]
  {
    var lo := m.offsets[r];
    var cs, vs := RowIndices(m, r), RowValues(m, r);
    assert cs[i - lo] == m.indices[i] && vs[i - lo] == m.values[i];
    LookupFound(cs, vs, i - lo);
  }

  /** A non-zero element of row r is stored in row r's segment. */
  lemma NonZeroIsStored(m: Csr, r: nat, c: nat)
    requires WellFormed(m) && r < m.rows && At(m, r, c) != 0
    ensures exists i :: m.offsets[r] <= i < m.offsets[r + 1] && m.indices[i] == c && m.values[i] == At(m, r, c)
  {
    var lo := m.offsets[r];
    var cs, vs := RowIndices(m, r), RowValues(m, r);
    if c !in cs {
      LookupAbsent(cs, vs, c);
    }
    var j :| 0 <= j < |cs| && cs[j] == c;
    LookupFound(cs, vs, j);
    assert m.indices[lo + j] == c && m.values[lo + j] == At(m, r, c);
  }

  /**
   * The canonical layout of a dense matrix stores (r, c, v) exactly when
   * cell (r, c) of the matrix holds v and v is not 0.
   */
  lemma FromDenseStores(d: Matrix, cols: nat, r: nat, c: nat, v: int)
    requires Shaped(d, |d|, cols)
    ensures WellFormed(FromDense(d, cols))
    ensures Stores(FromDense(d, cols), r, c, v) <==> r < |d| && c < cols && d[r][c] == v && v != 0
  {
    ToDenseOfFromDense(d, cols);
    StoresIffAt(FromDense(d, cols), r, c, v);
  }

  /** The canonical layout holds one entry per non-zero cell of the dense matrix. */
  lemma {:induction false} NnzCountsNonZeroCells(d: Matrix)
    ensures |IndicesOf(d)| == |NonZeroCells(d)|
  {
    if |d| > 0 {
      var n := |d| - 1;
      var front := d[..n];
      NnzCountsNonZeroCells(front);
      RowCellsCount(n, d[n]);
      NonZeroCellsSnoc(d);
      assert NonZeroCells(front) * RowCells(n, d[n]) == {};
    }
  }

  lemma NonZeroCellsSnoc(d: Matrix)
    requires |d| > 0
    ensures NonZeroCells(d) == NonZeroCells(d[..|d| - 1]) + RowCells(|d| - 1, d[|d| - 1])
  {
    var n := |d| - 1;
    var front := d[..n];
    forall p | p in NonZeroCells(d) ensures p in NonZeroCells(front) + RowCells(n, d[n]) {
      if p.0 < n { assert front[p.0] == d[p.0]; }
    }
    forall p | p in NonZeroCells(front) + RowCells(n, d[n]) ensures p in NonZeroCells(d) {
      if p in NonZeroCells(front) { assert front[p.0] == d[p.0]; }
    }
  }

  /** The fresh layout is well formed and is the canonical layout of the all-zero matrix. */
  lemma EmptyIsZero(rows: nat, cols: nat)
    ensures WellFormed(Empty(rows, cols))
    ensures Empty(rows, cols) == FromDense(Zero(rows, cols), cols)
  {
    var m, d := Empty(rows, cols), Zero(rows, cols);
    forall r | 0 <= r <= rows ensures m.offsets[r] == 0 { }
    forall r | 0 <= r < rows ensures m.indices[m.offsets[r]..m.offsets[r + 1]] == [] {
      assert m.offsets[r] == 0 && m.offsets[r + 1] == 0;
    }
    assert WellFormed(m);
    forall r | 0 <= r < rows
      ensures m.indices[m.offsets[r]..m.offsets[r + 1]] == NonZeroCols(d[r])
      ensures m.values[m.offsets[r]..m.offsets[r + 1]] == NonZeroVals(d[r])
    {
      assert m.offsets[r] == 0 && m.offsets[r + 1] == 0;
      ZeroRowCompressesToNothing(d[r]);
    }
    SegmentsDetermine(m, d);
  }

  lemma {:induction false} ZeroRowCompressesToNothing(row: seq<int>)
    requires forall c :: 0 <= c < |row| ==> row[c] == 0
    ensures NonZeroCols(row) == [] && NonZeroVals(row) == []
  {
    if |row| > 0 {
      ZeroRowCompressesToNothing(row[..|row| - 1]);
    }
  }

  // ---------------------------------------------------------------------
  // Products

  /** Sum of vs[i] * x[cs[i]] over a row segment, in storage order. */
  function SparseDot(cs: seq<nat>, vs: seq<int>, x: seq<int>): int
    requires |cs| == |vs| && forall i :: 0 <= i < |cs| ==> cs[i] < |x|
  {
    if |cs| == 0 then 0
    else SparseDot(cs[..|cs| - 1], vs[..|vs| - 1], x) + vs[|vs| - 1] * x[cs[|cs| - 1]]
  }

  /** Appending an entry adds its value times the vector at its column. */
  lemma SparseDotSnoc(cs: seq<nat>, vs: seq<int>, c: nat, v: int, x: seq<int>)
    requires |cs| == |vs| && c < |x| && forall i :: 0 <= i < |cs| ==> cs[i] < |x|
    ensures SparseDot(cs + [c], vs + [v], x) == SparseDot(cs, vs, x) + v * x[c]
  {
  }

  /** Skipping the zero cells of a row does not change its dot product. */
  lemma {:induction false} CompressedDot(row: seq<int>, x: seq<int>)
    requires |row| <= |x|
    ensures forall i :: 0 <= i < |NonZeroCols(row)| ==> NonZeroCols(row)[i] < |row|
    ensures SparseDot(NonZeroCols(row), NonZeroVals(row), x) == Dot(row, x)
  {
    if |row| > 0 {
      CompressedDot(row[..|row| - 1], x);
      CompressedDotStep(row, x);
    }
  }

  /** The inductive step of CompressedDot: taking in the last cell of the row. */
  lemma CompressedDotStep(row: seq<int>, x: seq<int>)
    requires 0 < |row| <= |x|
    requires var front := row[..|row| - 1];
      && (forall i :: 0 <= i < |NonZeroCols(front)| ==> NonZeroCols(front)[i] < |front|)
      && SparseDot(NonZeroCols(front), NonZeroVals(front), x) == Dot(front, x)
    ensures forall i :: 0 <= i < |NonZeroCols(row)| ==> NonZeroCols(row)[i] < |row|
    ensures SparseDot(NonZeroCols(row), NonZeroVals(row), x) == Dot(row, x)
  {
    var n := |row| - 1;
    var front := row[..n];
    var cs, cs', vs' := NonZeroCols(row), NonZeroCols(front), NonZeroVals(front);
    if row[n] != 0 {
      assert cs == cs' + [n] && NonZeroVals(row) == vs' + [row[n]];
      SparseDotSnoc(cs', vs', n, row[n], x);
      forall i | 0 <= i < |cs| ensures cs[i] < |row| {
        if i < |cs'| { assert cs[i] == cs'[i]; }
      }
    } else {
      assert cs == cs' && NonZeroVals(row) == vs';
    }
  }

  /** The sum of vs[i] * x[cs[i]] over row r's stored entries before position k. */
  function SegmentSum(m: Csr, x: seq<int>, r: nat, k: nat): int
    requires WellFormed(m) && |x| == m.cols && r < m.rows && m.offsets[r] <= k <= m.offsets[r + 1]
  {
    SparseDot(m.indices[m.offsets[r]..k], m.values[m.offsets[r]..k], x)
  }

  /** Taking in the entry at position k adds its value times the vector at its column. */
  lemma SegmentSumStep(m: Csr, x: seq<int>, r: nat, k: nat)
    requires WellFormed(m) && |x| == m.cols && r < m.rows && m.offsets[r] <= k < m.offsets[r + 1]
    ensures SegmentSum(m, x, r, k + 1) == SegmentSum(m, x, r, k) + m.values[k] * x[m.indices[k]]
  {
    var lo := m.offsets[r];
    SliceSnoc(m.indices, lo, k);
    SliceSnoc(m.values, lo, k);
    SparseDotSnoc(m.indices[lo..k], m.values[lo..k], m.indices[k], m.values[k], x);
  }

  /** The sum over row r's stored entries is the dense dot product of row r. */
  lemma RowProduct(m: Csr, r: nat, x: seq<int>)
    requires WellFormed(m) && r < m.rows && |x| == m.cols
    ensures SparseDot(RowIndices(m, r), RowValues(m, r), x) == Dot(ToDense(m)[r], x)
  {
    RowIsCompressed(m, r);
    CompressedDot(ToDense(m)[r], x);
  }
}

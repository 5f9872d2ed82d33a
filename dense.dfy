/**
 * Dense matrices: the reference the compressed sparse row model is measured
 * against. A dense matrix is a sequence of rows; element values are exact
 * integers, so "non-zero" means "not equal to 0".
 */
module Dense {

  type Matrix = seq<seq<int>>

  /** `d` has exactly `rows` rows, each holding exactly `cols` cells. */
  predicate Shaped(d: Matrix, rows: nat, cols: nat) {
    |d| == rows && forall r :: 0 <= r < |d| ==> |d[r]| == cols
  }

  /** The all-zero matrix with `rows` rows and `cols` columns. */
  function Zero(rows: nat, cols: nat): (d: Matrix)
    ensures Shaped(d, rows, cols)
  {
    seq(rows, _ => seq(cols, _ => 0))
  }

  /** Sum of row[c] * x[c], accumulated over ascending columns c. */
  function Dot(row: seq<int>, x: seq<int>): int
    requires |row| <= |x|
  {
    if |row| == 0 then 0
    else Dot(row[..|row| - 1], x) + row[|row| - 1] * x[|row| - 1]
  }

  /** The dense matrix-vector product: one dot product per row. */
  function Multiply(d: Matrix, x: seq<int>): (y: seq<int>)
    requires forall r :: 0 <= r < |d| ==> |d[r]| <= |x|
  {
    seq(|d|, r requires 0 <= r < |d| => Dot(d[r], x))
  }

  /** The transpose of a matrix whose rows all have `cols` cells. */
  function Transpose(d: Matrix, cols: nat): (t: Matrix)
    requires forall r :: 0 <= r < |d| ==> |d[r]| == cols
    ensures Shaped(t, cols, |d|)
  {
    seq(cols, c requires 0 <= c < cols => seq(|d|, r requires 0 <= r < |d| => d[r][c]))
  }

  /** Transposing twice gives back the matrix. */
  lemma TransposeTwice(d: Matrix, cols: nat)
    requires Shaped(d, |d|, cols)
    ensures Transpose(Transpose(d, cols), |d|) == d
  {
    var t := Transpose(Transpose(d, cols), |d|);
    forall r | 0 <= r < |d| ensures t[r] == d[r] {
      assert |t[r]| == |d[r]|;
    }
  }

  /** The cells of `d` that are not exactly zero, as (row, column) pairs. */
  ghost function NonZeroCells(d: Matrix): set<(nat, nat)> {
    set r: nat, c: nat | r < |d| && c < |d[r]| && d[r][c] != 0 :: (r, c)
  }

  /** The non-zero cells of row number `r`, whose contents are `row`. */
  ghost function RowCells(r: nat, row: seq<int>): set<(nat, nat)> {
    set c: nat | c < |row| && row[c] != 0 :: (r, c)
  }

  /**
   * The row compression: the columns of `row` holding a non-zero value,
   * in ascending order (see `NonZeroColsSpec`).
   */
  function NonZeroCols(row: seq<int>): seq<nat> {
    if |row| == 0 then []
    else NonZeroCols(row[..|row| - 1]) + (if row[|row| - 1] != 0 then [|row| - 1] else [])
  }

  /** The values that go with `NonZeroCols(row)`, in the same order. */
  function NonZeroVals(row: seq<int>): (vs: seq<int>)
    ensures |vs| == |NonZeroCols(row)|
  {
    if |row| == 0 then []
    else NonZeroVals(row[..|row| - 1]) + (if row[|row| - 1] != 0 then [row[|row| - 1]] else [])
  }

  /**
   * The compression of a row lists, in strictly increasing order, exactly the
   * columns whose cell is non-zero, each with that cell's value.
   */
  lemma {:induction false} NonZeroColsSpec(row: seq<int>)
    ensures forall i :: 0 <= i < |NonZeroCols(row)| ==>
      NonZeroCols(row)[i] < |row| && row[NonZeroCols(row)[i]] != 0 &&
      NonZeroVals(row)[i] == row[NonZeroCols(row)[i]]
    ensures forall i, j :: 0 <= i < j < |NonZeroCols(row)| ==> NonZeroCols(row)[i] < NonZeroCols(row)[j]
    ensures forall c :: 0 <= c < |row| && row[c] != 0 ==> c in NonZeroCols(row)
  {
    if |row| > 0 {
      var n := |row| - 1;
      var front := row[..n];
      NonZeroColsSpec(front);
      var cs, vs := NonZeroCols(row), NonZeroVals(row);
      var cs', vs' := NonZeroCols(front), NonZeroVals(front);
      if row[n] != 0 {
        assert cs == cs' + [n] && vs == vs' + [row[n]];
      } else {
        assert cs == cs' && vs == vs';
      }
      forall c | 0 <= c < |row| && row[c] != 0 ensures c in cs {
        if c < n { assert front[c] == row[c]; }
      }
    }
  }

  /** Taking in cell c of a row appends column c, and its value, exactly when the cell is non-zero. */
  lemma CompressStep(row: seq<int>, c: nat)
    requires c < |row|
    ensures NonZeroCols(row[..c + 1]) == NonZeroCols(row[..c]) + (if row[c] != 0 then [c] else [])
    ensures NonZeroVals(row[..c + 1]) == NonZeroVals(row[..c]) + (if row[c] != 0 then [row[c]] else [])
  {
    assert row[..c + 1][..c] == row[..c];
  }

  /** Appending a cell to a row adds its cell to the row's non-zero cells when it is non-zero. */
  lemma RowCellsSnoc(r: nat, row: seq<int>)
    requires |row| > 0
    ensures var n := |row| - 1;
      RowCells(r, row) == RowCells(r, row[..n]) + (if row[n] != 0 then {(r, n)} else {})
  {
    var n := |row| - 1;
    var front := row[..n];
    var extra: set<(nat, nat)> := if row[n] != 0 then {(r, n)} else {};
    forall p | p in RowCells(r, row) ensures p in RowCells(r, front) + extra {
      if p.1 < n { assert front[p.1] == row[p.1]; }
    }
    forall p | p in RowCells(r, front) + extra ensures p in RowCells(r, row) {
      if p in RowCells(r, front) { assert front[p.1] == row[p.1]; }
    }
  }

  /** The compression of a row lists exactly as many columns as the row has non-zero cells. */
  lemma {:induction false} RowCellsCount(r: nat, row: seq<int>)
    ensures |RowCells(r, row)| == |NonZeroCols(row)|
  {
    if |row| > 0 {
      var n := |row| - 1;
      var front := row[..n];
      RowCellsCount(r, front);
      RowCellsSnoc(r, row);
      assert (r, n) !in RowCells(r, front);
      assert |NonZeroCols(row)| == |NonZeroCols(front)| + (if row[n] != 0 then 1 else 0);
    }
  }
}

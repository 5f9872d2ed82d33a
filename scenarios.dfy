/**
 * The unit scenarios of the sparse matrix, stated against the model: each
 * method builds a matrix from a small dense matrix and checks, from the
 * contracts of BuildFromDense, Multiply, Transpose and the accessors, the
 * values the scenario expects. The arithmetic on each concrete matrix is
 * done once, in a lemma about the dense reference.
 */
module Scenarios {
  import opened Dense
  import opened CsrFormat
  import opened TransposeSpec
  import opened SparseMatrix

  const Single: Matrix := [[8]]
  const Basic: Matrix := [[1, 0, 2], [0, 3, 0], [4, 0, 5]]
  const Identity: Matrix := [[1, 0, 0], [0, 1, 0], [0, 0, 1]]
  const Zeros: Matrix := [[0, 0], [0, 0]]
  const Square: Matrix := [[1, 2], [3, 0]]
  const Wide: Matrix := [[1, 0, 2], [3, 4, 0]]

  /** [[8]] times [2] is [16], with one stored entry. */
  method SingleElement() {
    var sparse := new SparseMatrixCSR(1, 1);
    var outcome := sparse.BuildFromDense(Single);
    SingleFacts();
    var result := sparse.Multiply([2]);
    assert result == Success([16]);
    assert sparse.GetNNZ() == 1;
  }

  lemma SingleFacts()
    ensures Shaped(Single, 1, 1)
    ensures Multiply(Single, [2]) == [16] && |IndicesOf(Single)| == 1
  {
    assert Single[..0] == [] && Single[..1] == Single;
    FromDenseStep(Single, 0);
    assert Single[0][..0] == [] && Single[0][..1] == Single[0];
    CompressStep(Single[0], 0);
    assert Dot(Single[0], [2]) == Dot([], [2]) + 8 * 2;
  }

  /** A 3 x 3 matrix with five entries times the all-ones vector gives the row sums. */
  method BasicMultiplication() {
    var sparse := new SparseMatrixCSR(3, 3);
    var outcome := sparse.BuildFromDense(Basic);
    BasicFacts();
    var result := sparse.Multiply([1, 1, 1]);
    assert result == Success([3, 3, 9]);
  }

  lemma BasicFacts()
    ensures Shaped(Basic, 3, 3) && Multiply(Basic, [1, 1, 1]) == [3, 3, 9]
  {
    DotOfThree(Basic[0], [1, 1, 1]);
    DotOfThree(Basic[1], [1, 1, 1]);
    DotOfThree(Basic[2], [1, 1, 1]);
  }

  /** The identity matrix leaves a vector unchanged and stores its three diagonal entries. */
  method IdentityMatrix() {
    var sparse := new SparseMatrixCSR(3, 3);
    var outcome := sparse.BuildFromDense(Identity);
    IdentityFacts([7, 8, 9]);
    var result := sparse.Multiply([7, 8, 9]);
    assert result == Success([7, 8, 9]);
    assert sparse.GetNNZ() == 3;
  }

  /** The 3 x 3 identity maps every vector of three cells to itself and has one non-zero cell per row. */
  lemma IdentityFacts(x: seq<int>)
    requires |x| == 3
    ensures Shaped(Identity, 3, 3) && Multiply(Identity, x) == x && |IndicesOf(Identity)| == 3
  {
    DotOfThree(Identity[0], x);
    DotOfThree(Identity[1], x);
    DotOfThree(Identity[2], x);
    OneNonZero(Identity[0], 0);
    OneNonZero(Identity[1], 1);
    OneNonZero(Identity[2], 2);
    assert Identity[..3] == Identity;
    FromDenseStep(Identity, 0);
    FromDenseStep(Identity, 1);
    FromDenseStep(Identity, 2);
  }

  /** The 3 x 3 identity is its own transpose. */
  lemma IdentitySymmetric()
    ensures Transpose(Identity, 3) == Identity
  {
    var t := Transpose(Identity, 3);
    assert t[0] == Identity[0] && t[1] == Identity[1] && t[2] == Identity[2];
  }

  /** A matrix of zeros stores nothing. */
  method EmptyMatrix() {
    var sparse := new SparseMatrixCSR(2, 2);
    var outcome := sparse.BuildFromDense(Zeros);
    ZerosFacts();
    assert sparse.GetNNZ() == 0;
  }

  lemma ZerosFacts()
    ensures Shaped(Zeros, 2, 2) && |IndicesOf(Zeros)| == 0
  {
    ZeroRowCompressesToNothing(Zeros[0]);
    ZeroRowCompressesToNothing(Zeros[1]);
    assert Zeros[..2] == Zeros;
    FromDenseStep(Zeros, 0);
    FromDenseStep(Zeros, 1);
  }

  /** A vector of three entries is rejected by a matrix of two columns. */
  method DimensionMismatch() {
    var sparse := new SparseMatrixCSR(2, 2);
    var outcome := sparse.BuildFromDense([[1, 2], [3, 4]]);
    var result := sparse.Multiply([1, 2, 3]);
    assert result == Failure(VectorSizeMismatch);
  }

  /** The transpose of [[1, 2], [3, 0]] is 2 x 2 with three entries, and maps [1, 1] to [4, 2]. */
  method BasicTranspose() {
    var sparse := new SparseMatrixCSR(2, 2);
    var outcome := sparse.BuildFromDense(Square);
    SquareFacts();
    var transposed := sparse.Transpose();
    assert ToDense(transposed.View()) == ToDense(TransposeOf(sparse.View()));
    assert transposed.GetRows() == 2 && transposed.GetCols() == 2;
    assert transposed.GetNNZ() == 3;
    var result := transposed.Multiply([1, 1]);
    assert result == Success([4, 2]);
  }

  lemma SquareFacts()
    ensures Shaped(Square, 2, 2) && |IndicesOf(Square)| == 3
    ensures Transpose(Square, 2) == [[1, 3], [2, 0]]
    ensures Multiply(Transpose(Square, 2), [1, 1]) == [4, 2]
  {
    TwoNonZero(Square[0]);
    OneNonZeroOfTwo(Square[1]);
    assert Square[..2] == Square;
    FromDenseStep(Square, 0);
    FromDenseStep(Square, 1);
    SquareTransposed();
  }

  lemma SquareTransposed()
    ensures Transpose(Square, 2) == [[1, 3], [2, 0]]
    ensures Multiply([[1, 3], [2, 0]], [1, 1]) == [4, 2]
  {
    var t := Transpose(Square, 2);
    assert t[0] == [1, 3] && t[1] == [2, 0];
    DotOfTwo([1, 3], [1, 1]);
    DotOfTwo([2, 0], [1, 1]);
  }

  /** A two-cell row with both cells non-zero compresses to two columns. */
  lemma TwoNonZero(row: seq<int>)
    requires |row| == 2 && row[0] != 0 && row[1] != 0
    ensures |NonZeroCols(row)| == 2
  {
    CompressStep(row, 0);
    CompressStep(row, 1);
    assert row[..0] == [] && row[..2] == row;
  }

  /** A two-cell row with only its first cell non-zero compresses to one column. */
  lemma OneNonZeroOfTwo(row: seq<int>)
    requires |row| == 2 && row[0] != 0 && row[1] == 0
    ensures |NonZeroCols(row)| == 1
  {
    CompressStep(row, 0);
    CompressStep(row, 1);
    assert row[..0] == [] && row[..2] == row;
  }

  /** The identity matrix is its own transpose: both map [1, 2, 3] alike. */
  method TransposeIdentity() {
    var sparse := new SparseMatrixCSR(3, 3);
    var outcome := sparse.BuildFromDense(Identity);
    IdentityFacts([1, 2, 3]);
    var transposed := sparse.Transpose();
    assert ToDense(transposed.View()) == ToDense(TransposeOf(sparse.View()));
    IdentitySymmetric();
    var originalResult := sparse.Multiply([1, 2, 3]);
    var transposedResult := transposed.Multiply([1, 2, 3]);
    assert originalResult == transposedResult == Success([1, 2, 3]);
  }

  /** The transpose of a 2 x 3 matrix with four entries is 3 x 2 with four entries. */
  method TransposeRectangular() {
    var sparse := new SparseMatrixCSR(2, 3);
    var outcome := sparse.BuildFromDense(Wide);
    WideFacts();
    var transposed := sparse.Transpose();
    assert transposed.GetRows() == 3 && transposed.GetCols() == 2;
    assert transposed.GetNNZ() == 4;
  }

  lemma WideFacts()
    ensures Shaped(Wide, 2, 3) && |IndicesOf(Wide)| == 4
  {
    CompressesToTwo(Wide[0]);
    CompressesToTwo(Wide[1]);
    assert Wide[..2] == Wide;
    FromDenseStep(Wide, 0);
    FromDenseStep(Wide, 1);
  }

  /** The dot product of a two-cell row, written out. */
  lemma DotOfTwo(row: seq<int>, x: seq<int>)
    requires |row| == 2 && |x| == 2
    ensures Dot(row, x) == row[0] * x[0] + row[1] * x[1]
  {
    assert Dot(row[..1], x) == Dot(row[..1][..0], x) + row[0] * x[0];
  }

  /** The dot product of a three-cell row, written out. */
  lemma DotOfThree(row: seq<int>, x: seq<int>)
    requires |row| == 3 && |x| == 3
    ensures Dot(row, x) == row[0] * x[0] + row[1] * x[1] + row[2] * x[2]
  {
    assert row[..2][..1] == row[..1];
    assert Dot(row[..1], x) == Dot(row[..1][..0], x) + row[0] * x[0];
  }

  /** A three-cell row whose only non-zero cell is cell j compresses to one column. */
  lemma OneNonZero(row: seq<int>, j: nat)
    requires |row| == 3 && j < 3 && row[j] != 0
    requires forall c :: 0 <= c < 3 && c != j ==> row[c] == 0
    ensures |NonZeroCols(row)| == 1
  {
    CompressStep(row, 0);
    CompressStep(row, 1);
    CompressStep(row, 2);
    assert row[..0] == [] && row[..3] == row;
  }

  /** A three-cell row whose first cell and exactly one other cell are non-zero compresses to two columns. */
  lemma CompressesToTwo(row: seq<int>)
    requires |row| == 3 && row[0] != 0 && (row[1] == 0) != (row[2] == 0)
    ensures |NonZeroCols(row)| == 2
  {
    CompressStep(row, 0);
    CompressStep(row, 1);
    CompressStep(row, 2);
    assert row[..0] == [] && row[..3] == row;
  }
}

/** The small matrix kit of Algorithms/RevisedSimplex.cs: transpose, product,
    identity, column matrix and Gauss-Jordan inverse over lists of rows. A C#
    exception becomes a Fail result naming the exception. */
module RevisedMatrix {
  import opened Common

  type Matrix = seq<seq<real>>

  /** The exceptions of RevisedSimplex.cs: an index past the end of a list,
      an ArgumentException with one of its three messages, or Enumerable.Max
      on an empty sequence. */
  datatype Fault = IndexOutOfRange | Incompatible | NotSquare | Singular | NoElements

  datatype Result<T> = Ok(value: T) | Fail(fault: Fault)

  /** The pivot tolerance of MatInverse (1e-10). */
  const InverseTol: real := 0.0000000001

  /** Every row has at least w entries. */
  predicate Wide(M: Matrix, w: nat) {
    forall i :: 0 <= i < |M| ==> |M[i]| >= w
  }

  // ---------------------------------------------------------------------
  // Reference definitions

  /** The transpose of the first cols columns of M. */
  function Transposed(M: Matrix, cols: nat): (R: Matrix)
    requires Wide(M, cols)
    ensures |R| == cols && Rectangular(R, |M|)
  {
    seq(cols, j requires 0 <= j < cols => seq(|M|, i requires 0 <= i < |M| => M[i][j]))
  }

  /** The sum over k < n of A-row entries times B-column entries, added left to right. */
  function Dot(a: seq<real>, B: Matrix, j: nat, n: nat): real
    requires n <= |a| && n <= |B| && forall k :: 0 <= k < n ==> j < |B[k]|
  {
    if n == 0 then 0.0 else Dot(a, B, j, n - 1) + a[n - 1] * B[n - 1][j]
  }

  /** The rowsA x w product of A (n columns used) and B (n rows, w columns used). */
  function Product(A: Matrix, B: Matrix, n: nat, w: nat): (P: Matrix)
    requires Wide(A, n) && n <= |B| && forall k :: 0 <= k < n ==> |B[k]| >= w
    ensures |P| == |A| && Rectangular(P, w)
  {
    seq(|A|, i requires 0 <= i < |A| => seq(w, j requires 0 <= j < w => Dot(A[i], B, j, n)))
  }

  function Identity(n: nat): (I: Matrix)
    ensures |I| == n && Rectangular(I, n)
  {
    seq(n, i requires 0 <= i < n => seq(n, j requires 0 <= j < n => if i == j then 1.0 else 0.0))
  }

  function ColumnMatrix(v: seq<real>): (M: Matrix)
    ensures |M| == |v| && Rectangular(M, 1)
  {
    seq(|v|, i requires 0 <= i < |v| => [v[i]])
  }

  // ---------------------------------------------------------------------
  // Properties of the reference definitions

  /** Transposing twice gives back a rectangular matrix. */
  lemma TransposeTwice(M: Matrix, cols: nat)
    requires |M| > 0 && Rectangular(M, cols)
    ensures cols > 0 ==> Transposed(Transposed(M, cols), |M|) == M
  {
    if cols > 0 {
      var T := Transposed(M, cols);
      var TT := Transposed(T, |M|);
      forall i | 0 <= i < |M| ensures TT[i] == M[i] {
        assert |TT[i]| == cols == |M[i]|;
      }
    }
  }

  /** Only the diagonal term of an identity row survives in a dot product. */
  lemma {:induction false} DotIdentityRow(i: nat, B: Matrix, j: nat, n: nat, k: nat)
    requires i < n && k <= n <= |B| && forall q :: 0 <= q < n ==> j < |B[q]|
    ensures Dot(Identity(n)[i], B, j, k) == if i < k then B[i][j] else 0.0
  {
    if k > 0 {
      DotIdentityRow(i, B, j, n, k - 1);
    }
  }

  /** Only the diagonal term of an identity column survives in a dot product. */
  lemma {:induction false} DotIdentityColumn(a: seq<real>, j: nat, n: nat, k: nat)
    requires j < n && k <= n <= |a|
    ensures Dot(a, Identity(n), j, k) == if j < k then a[j] else 0.0
  {
    if k > 0 {
      DotIdentityColumn(a, j, n, k - 1);
    }
  }

  /** The identity is neutral on both sides of the product. */
  lemma ProductIdentity(A: Matrix, n: nat)
    requires Rectangular(A, n)
    ensures Product(Identity(|A|), A, |A|, n) == A
    ensures Product(A, Identity(n), n, n) == A
  {
    var L := Product(Identity(|A|), A, |A|, n);
    forall i, j | 0 <= i < |A| && 0 <= j < n ensures L[i][j] == A[i][j] {
      DotIdentityRow(i, A, j, |A|, |A|);
    }
    assert forall i :: 0 <= i < |A| ==> L[i] == A[i];
    var R := Product(A, Identity(n), n, n);
    forall i, j | 0 <= i < |A| && 0 <= j < n ensures R[i][j] == A[i][j] {
      DotIdentityColumn(A[i], j, n, n);
    }
    assert forall i :: 0 <= i < |A| ==> R[i] == A[i];
  }

  // ---------------------------------------------------------------------
  // The methods (RevisedSimplex.cs:346-407, 483-491)

  /** result[j][i] = matrix[i][j]; an empty matrix or a row shorter than the
      first one throws. */
  method MatTranspose(matrix: Matrix) returns (r: Result<Matrix>)
    ensures |matrix| == 0 || !Wide(matrix, |matrix[0]|) <==> r == Fail(IndexOutOfRange)
    ensures r.Ok? ==> r.value == Transposed(matrix, |matrix[0]|)
  {
    if |matrix| == 0 {
      return Fail(IndexOutOfRange);
    }
    var rows, cols := |matrix|, |matrix[0]|;
    var k := 0;
    while k < rows
      invariant 0 <= k <= rows && Wide(matrix[..k], cols)
    {
      if |matrix[k]| < cols {
        assert matrix[k] == matrix[..k + 1][k];
        return Fail(IndexOutOfRange);
      }
      k := k + 1;
    }
    assert matrix[..rows] == matrix;
    var result: Matrix := [];
    for j := 0 to cols
      invariant |result| == j && forall q :: 0 <= q < j ==> result[q] == Transposed(matrix, cols)[q]
    {
      var row: seq<real> := [];
      for i := 0 to rows
        invariant row == Transposed(matrix, cols)[j][..i]
      {
        row := row + [matrix[i][j]];
      }
      result := result + [row];
    }
    return Ok(result);
  }

  /** Whether the product loops stay inside every row they read. */
  predicate ProductFits(A: Matrix, B: Matrix) {
    |A| > 0 && |B| > 0 && (|B[0]| == 0 || (Wide(A, |A[0]|) && Wide(B, |B[0]|)))
  }

  /** result[i][j] = sum over k of A[i][k] * B[k][j]; incompatible dimensions
      (columns of A against rows of B) throw the ArgumentException. */
  method MatMultiply(A: Matrix, B: Matrix) returns (r: Result<Matrix>)
    ensures |A| == 0 || |B| == 0 ==> r == Fail(IndexOutOfRange)
    ensures |A| > 0 && |B| > 0 && |A[0]| != |B| ==> r == Fail(Incompatible)
    ensures r.Ok? <==> |A| > 0 && |B| > 0 && |A[0]| == |B| && ProductFits(A, B)
    ensures r.Ok? ==> |B[0]| == 0 || r.value == Product(A, B, |A[0]|, |B[0]|)
    ensures r.Ok? ==> |r.value| == |A| && Rectangular(r.value, |B[0]|)
  {
    if |A| == 0 || |B| == 0 {
      return Fail(IndexOutOfRange);
    }
    var rowsA, colsA, rowsB, colsB := |A|, |A[0]|, |B|, |B[0]|;
    if colsA != rowsB {
      return Fail(Incompatible);
    }
    if colsB > 0 {
      var fits := RowsReach(A, colsA);
      var fitsB := RowsReach(B, colsB);
      if !fits || !fitsB {
        return Fail(IndexOutOfRange);
      }
    } else {
      return Ok(seq(rowsA, i => []));
    }
    var result: Matrix := [];
    for i := 0 to rowsA
      invariant |result| == i && forall q :: 0 <= q < i ==> result[q] == Product(A, B, colsA, colsB)[q]
    {
      var row: seq<real> := [];
      for j := 0 to colsB
        invariant row == Product(A, B, colsA, colsB)[i][..j]
      {
        var sum := 0.0;
        for k := 0 to colsA
          invariant sum == Dot(A[i], B, j, k)
        {
          sum := sum + A[i][k] * B[k][j];
        }
        row := row + [sum];
      }
      result := result + [row];
    }
    return Ok(result);
  }

  /** Whether every row of M has at least w entries (the rows an index loop reads). */
  method RowsReach(M: Matrix, w: nat) returns (ok: bool)
    ensures ok <==> Wide(M, w)
  {
    for k := 0 to |M|
      invariant Wide(M[..k], w)
    {
      if |M[k]| < w {
        assert M[k] == M[..k + 1][k];
        return false;
      }
    }
    assert M[..|M|] == M;
    return true;
  }

  /** n x n, 1 exactly on the diagonal. */
  method MatIdentity(n: nat) returns (result: Matrix)
    ensures result == Identity(n)
    ensures |result| == n && forall i, j :: 0 <= i < n && 0 <= j < n ==> result[i][j] == (if i == j then 1.0 else 0.0)
  {
    result := [];
    for i := 0 to n
      invariant |result| == i && forall q :: 0 <= q < i ==> result[q] == Identity(n)[q]
    {
      var row: seq<real> := [];
      for j := 0 to n
        invariant row == Identity(n)[i][..j]
      {
        row := row + [if i == j then 1.0 else 0.0];
      }
      result := result + [row];
    }
  }

  /** The n x 1 matrix holding the list as its only column. */
  method MatFromColVector(lst: seq<real>) returns (result: Matrix)
    ensures result == ColumnMatrix(lst)
    ensures |result| == |lst| && forall i :: 0 <= i < |lst| ==> result[i] == [lst[i]]
  {
    result := [];
    for i := 0 to |lst|
      invariant result == ColumnMatrix(lst[..i])
    {
      result := result + [[lst[i]]];
    }
    assert lst[..|lst|] == lst;
  }
}

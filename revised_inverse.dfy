/** MatInverse of Algorithms/RevisedSimplex.cs: Gauss-Jordan elimination on
    the augmented matrix [A | I], with a row swap when the diagonal entry is
    below the tolerance. Every row of the augmented matrix stays a combination
    of A's rows whose coefficients are its right half, so once the left half
    is the identity the right half R satisfies R * A = I. */
module RevisedInverse {
  import opened Common
  import opened RevisedMatrix

  /** The row divided entry by entry by p. */
  function Scaled(row: seq<real>, p: real): (r: seq<real>)
    requires p != 0.0
    ensures |r| == |row| && forall j :: 0 <= j < |row| ==> r[j] == row[j] / p
  {
    seq(|row|, j requires 0 <= j < |row| => row[j] / p)
  }

  /** row minus f times prow, entry by entry. */
  function Minus(row: seq<real>, f: real, prow: seq<real>): (r: seq<real>)
    requires |prow| >= |row|
    ensures |r| == |row| && forall j :: 0 <= j < |row| ==> r[j] == row[j] - f * prow[j]
  {
    seq(|row|, j requires 0 <= j < |row| => row[j] - f * prow[j])
  }

  /** A row of [A | I] after row operations: its left half is the combination
      of A's rows with the coefficients of its right half. */
  ghost predicate Tracks(row: seq<real>, A: Matrix, n: nat)
    requires |A| == n && Rectangular(A, n)
  {
    |row| == 2 * n && forall c :: 0 <= c < n ==> row[c] == Dot(row[n..], A, c, n)
  }

  lemma {:induction false} DotScaled(a: seq<real>, p: real, B: Matrix, j: nat, k: nat)
    requires p != 0.0 && k <= |a| && k <= |B| && forall q :: 0 <= q < k ==> j < |B[q]|
    ensures Dot(Scaled(a, p), B, j, k) == Dot(a, B, j, k) / p
  {
    if k > 0 {
      DotScaled(a, p, B, j, k - 1);
      var x, y, b := Dot(a, B, j, k - 1), a[k - 1], B[k - 1][j];
      assert (y / p) * b == (y * b) / p;
      assert x / p + (y * b) / p == (x + y * b) / p;
    }
  }

  lemma {:induction false} DotMinus(x: seq<real>, f: real, y: seq<real>, B: Matrix, j: nat, k: nat)
    requires |y| >= |x| && k <= |x| && k <= |B| && forall q :: 0 <= q < k ==> j < |B[q]|
    ensures Dot(Minus(x, f, y), B, j, k) == Dot(x, B, j, k) - f * Dot(y, B, j, k)
  {
    if k > 0 {
      DotMinus(x, f, y, B, j, k - 1);
      var b := B[k - 1][j];
      assert (x[k - 1] - f * y[k - 1]) * b == x[k - 1] * b - f * (y[k - 1] * b);
      assert f * Dot(y, B, j, k) == f * Dot(y, B, j, k - 1) + f * (y[k - 1] * b);
    }
  }

  lemma TracksInit(A: Matrix, n: nat, r: nat)
    requires |A| == n && Rectangular(A, n) && r < n
    ensures Tracks(A[r] + Identity(n)[r], A, n)
  {
    var row := A[r] + Identity(n)[r];
    assert row[n..] == Identity(n)[r];
    forall c | 0 <= c < n ensures row[c] == Dot(row[n..], A, c, n) {
      DotIdentityRow(r, A, c, n, n);
    }
  }

  lemma TracksScaled(row: seq<real>, p: real, A: Matrix, n: nat)
    requires |A| == n && Rectangular(A, n) && p != 0.0 && Tracks(row, A, n)
    ensures Tracks(Scaled(row, p), A, n)
  {
    var s := Scaled(row, p);
    assert s[n..] == Scaled(row[n..], p);
    forall c | 0 <= c < n ensures s[c] == Dot(s[n..], A, c, n) {
      DotScaled(row[n..], p, A, c, n);
    }
  }

  lemma TracksMinus(row: seq<real>, f: real, prow: seq<real>, A: Matrix, n: nat)
    requires |A| == n && Rectangular(A, n) && Tracks(row, A, n) && Tracks(prow, A, n)
    ensures Tracks(Minus(row, f, prow), A, n)
  {
    var s := Minus(row, f, prow);
    var x, y := row[n..], prow[n..];
    MinusSlice(row, f, prow, n);
    forall c | 0 <= c < n ensures s[c] == Dot(s[n..], A, c, n) {
      DotMinus(x, f, y, A, c, n);
      assert row[c] == Dot(x, A, c, n) && prow[c] == Dot(y, A, c, n);
    }
  }

  lemma MinusSlice(row: seq<real>, f: real, prow: seq<real>, n: nat)
    requires n <= |row| <= |prow|
    ensures Minus(row, f, prow)[n..] == Minus(row[n..], f, prow[n..])
  {
    var s := Minus(row, f, prow);
    assert forall j :: 0 <= j < |row| - n ==> s[n..][j] == Minus(row[n..], f, prow[n..])[j];
  }

  /** The right halves of rows whose left halves are the identity invert A from the left. */
  lemma LeftInverse(aug: Matrix, A: Matrix, n: nat, R: Matrix)
    requires |A| == n && Rectangular(A, n) && |aug| == n
    requires forall r :: 0 <= r < n ==> Tracks(aug[r], A, n) && |aug[r]| == 2 * n
    requires forall r, c :: 0 <= r < n && 0 <= c < n ==> aug[r][c] == if r == c then 1.0 else 0.0
    requires |R| == n && forall r :: 0 <= r < n ==> R[r] == aug[r][n..]
    ensures Rectangular(R, n) && Product(R, A, n, n) == Identity(n)
  {
    var P := Product(R, A, n, n);
    forall r | 0 <= r < n ensures P[r] == Identity(n)[r] {
      assert forall c :: 0 <= c < n ==> P[r][c] == aug[r][c];
    }
  }

  /** The pivot row divided by the pivot (RevisedSimplex.cs:454-457). */
  method NormalizeRow(aug: Matrix, i: nat, pivot: real) returns (res: Matrix)
    requires i < |aug| && pivot != 0.0
    ensures res == aug[i := Scaled(aug[i], pivot)]
  {
    var row := aug[i];
    for j := 0 to |row|
      invariant |row| == |aug[i]| && row == Scaled(aug[i], pivot)[..j] + aug[i][j..]
    {
      row := row[j := row[j] / pivot];
    }
    assert row == Scaled(aug[i], pivot);
    res := aug[i := row];
  }

  /** Row r minus factor times the pivot row i (RevisedSimplex.cs:464-468). */
  method EliminateRow(aug: Matrix, r: nat, i: nat, factor: real) returns (res: Matrix)
    requires r < |aug| && i < |aug| && r != i && |aug[i]| >= |aug[r]|
    ensures res == aug[r := Minus(aug[r], factor, aug[i])]
  {
    var row := aug[r];
    for j := 0 to |row|
      invariant |row| == |aug[r]| && row == Minus(aug[r], factor, aug[i])[..j] + aug[r][j..]
    {
      row := row[j := row[j] - factor * aug[i][j]];
    }
    assert row == Minus(aug[r], factor, aug[i]);
    res := aug[r := row];
  }

  /** The invariant of the elimination: every row tracks A and columns below done are unit columns. */
  ghost predicate Eliminated(aug: Matrix, A: Matrix, n: nat, done: nat)
    requires |A| == n && Rectangular(A, n)
  {
    done <= n && |aug| == n && (forall r :: 0 <= r < n ==> Tracks(aug[r], A, n) && |aug[r]| == 2 * n)
    && forall r, c :: 0 <= r < n && 0 <= c < done ==> aug[r][c] == if r == c then 1.0 else 0.0
  }

  /** An n x n matrix R with R * A = I, or the exception MatInverse throws:
      no rows, a first row of another length, or a pivot column without an
      entry above 1e-10 in magnitude at or below the diagonal. */
  method MatInverse(matrix: Matrix) returns (r: Result<Matrix>)
    requires forall i :: 0 <= i < |matrix| ==> |matrix[i]| == |matrix[0]|
    ensures |matrix| == 0 <==> r == Fail(IndexOutOfRange)
    ensures |matrix| > 0 && |matrix[0]| != |matrix| <==> r == Fail(NotSquare)
    ensures r.Ok? ==> var n := |matrix|;
      |r.value| == n && Rectangular(r.value, n) && Product(r.value, matrix, n, n) == Identity(n)
  {
    var n := |matrix|;
    if n == 0 {
      return Fail(IndexOutOfRange);
    }
    var m := |matrix[0]|;
    if n != m {
      return Fail(NotSquare);
    }
    var aug: Matrix := [];
    var identity := MatIdentity(n);
    for i := 0 to n
      invariant |aug| == i && forall q :: 0 <= q < i ==> aug[q] == matrix[q] + identity[q]
    {
      var row := matrix[i] + identity[i];
      aug := aug + [row];
    }
    forall q | 0 <= q < n ensures Tracks(aug[q], matrix, n) {
      TracksInit(matrix, n, q);
    }
    for i := 0 to n
      invariant Eliminated(aug, matrix, n, i)
    {
      var pivot := aug[i][i];
      if Abs(pivot) < InverseTol {
        var swapped := false;
        var k := i + 1;
        while k < n
          invariant i + 1 <= k <= n && Eliminated(aug, matrix, n, i) && pivot == aug[i][i]
          invariant swapped ==> Abs(pivot) > InverseTol
          decreases n - k
        {
          if Abs(aug[k][i]) > InverseTol {
            var temp := aug[i];
            aug := aug[i := aug[k]][k := temp];
            pivot := aug[i][i];
            swapped := true;
            break;
          }
          k := k + 1;
        }
        if !swapped {
          return Fail(Singular);
        }
      }
      aug := PivotColumn(aug, matrix, n, i, pivot);
    }
    var result: Matrix := [];
    for i := 0 to n
      invariant |result| == i && forall q :: 0 <= q < i ==> result[q] == aug[q][n..]
    {
      result := result + [aug[i][n..2 * n]];
    }
    LeftInverse(aug, matrix, n, result);
    return Ok(result);
  }

  /** One pass of the outer loop once the pivot is in place: normalise row i,
      then clear column i in every other row. */
  method PivotColumn(aug: Matrix, A: Matrix, n: nat, i: nat, pivot: real) returns (res: Matrix)
    requires |A| == n && Rectangular(A, n) && i < n && Eliminated(aug, A, n, i)
    requires pivot == aug[i][i] && pivot != 0.0
    ensures Eliminated(res, A, n, i + 1)
  {
    res := NormalizeRow(aug, i, pivot);
    TracksScaled(aug[i], pivot, A, n);
    assert res[i][i] == 1.0;
    for r := 0 to n
      invariant |res| == n && (forall q :: 0 <= q < n ==> Tracks(res[q], A, n) && |res[q]| == 2 * n)
      invariant res[i] == Scaled(aug[i], pivot)
      invariant forall q, c :: 0 <= q < n && 0 <= c < i ==> res[q][c] == if q == c then 1.0 else 0.0
      invariant forall q :: 0 <= q < r && q != i ==> res[q][i] == 0.0
      invariant forall q :: r <= q < n && q != i ==> res[q] == aug[q]
    {
      if r != i {
        var factor := res[r][i];
        TracksMinus(res[r], factor, res[i], A, n);
        res := EliminateRow(res, r, i, factor);
      }
    }
  }
}

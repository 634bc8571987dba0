/** Model/SimplexSnap.cs: a snapshot of the Big-M model's arrays, copied
    into fresh arrays, with the objective value of the basic solution. */
module SimplexSnaps {
  import opened Common
  import opened BigMSpec

  /** fValue after the first k basis entries: Σ fVars[C[i]]·b[i]. */
  function FValue(fVars: seq<real>, C: seq<nat>, b: seq<real>, k: nat): real
    requires k <= |C| && k <= |b| && BasisIn(C, |fVars|)
  {
    if k == 0 then 0.0 else FValue(fVars, C, b, k - 1) + fVars[C[k - 1]] * b[k - 1]
  }

  /** The snapshot of a canonized (min) objective holds the negated value of
      the original objective's. */
  lemma {:induction false} FValueNegated(fVars: seq<real>, C: seq<nat>, b: seq<real>, k: nat)
    requires k <= |C| && k <= |b| && BasisIn(C, |fVars|)
    ensures FValue(Negated(fVars), C, b, k) == -FValue(fVars, C, b, k)
  {
    if k > 0 {
      FValueNegated(fVars, C, b, k - 1);
    }
  }

  /** The row width the 2-D copy gives every row: that of the first row. */
  function CopyWidth<T>(mat: seq<seq<T>>): nat {
    if |mat| == 0 then 0 else |mat[0]|
  }

  /** Every row is at least as wide as the first, so the 2-D copy reads
      only entries that exist. */
  predicate CopyableRows<T>(mat: seq<seq<T>>) {
    forall i :: 0 <= i < |mat| ==> CopyWidth(mat) <= |mat[i]|
  }

  /** Copy (SimplexSnap.cs:42-50): a fresh array with the same elements. */
  method Copy<T(0)>(a: seq<T>) returns (r: array<T>)
    ensures fresh(r) && r[..] == a
  {
    r := new T[|a|];
    for i := 0 to |a|
      invariant r[..i] == a[..i]
    {
      r[i] := a[i];
    }
  }

  /** Copy (SimplexSnap.cs:52-64): a fresh |mat| by width-of-the-first-row
      array holding the entries of mat. */
  method Copy2(mat: seq<seq<real>>) returns (r: array2<real>)
    requires CopyableRows(mat)
    ensures fresh(r) && r.Length0 == |mat| && r.Length1 == CopyWidth(mat)
    ensures forall i, j :: 0 <= i < |mat| && 0 <= j < CopyWidth(mat) ==> r[i, j] == mat[i][j]
  {
    var w := CopyWidth(mat);
    r := new real[|mat|, w];
    for i := 0 to |mat|
      invariant forall p, q :: 0 <= p < i && 0 <= q < w ==> r[p, q] == mat[p][q]
    {
      for j := 0 to w
        invariant forall p, q :: 0 <= p < i && 0 <= q < w ==> r[p, q] == mat[p][q]
        invariant forall q :: 0 <= q < j ==> r[i, q] == mat[i][q]
      {
        r[i, j] := mat[i][j];
      }
    }
  }

  /** The fValue loop of SimplexSnap.cs:34-38. */
  method ObjectiveValue(fVars: seq<real>, C: seq<nat>, b: seq<real>) returns (value: real)
    requires |C| <= |b| && BasisIn(C, |fVars|)
    ensures value == FValue(fVars, C, b, |C|)
  {
    value := 0.0;
    for i := 0 to |C|
      invariant value == FValue(fVars, C, b, i)
    {
      value := value + fVars[C[i]] * b[i];
    }
  }

  class SimplexSnap {
    const b: array<real>
    const matrix: array2<real>
    const M: array<real>
    const F: array<real>
    const C: array<nat>
    const fValue: real
    const fVars: array<real>
    const isMDone: bool
    const m: array<bool>
    ghost const Repr: set<object>

    /** The snapshot holds state s; a rectangular matrix is held entry for
        entry. */
    ghost predicate Records(s: State)
      reads Repr
    {
      && Repr == {this, b, matrix, M, F, C, fVars, m}
      && b[..] == s.b && Grid(matrix) == s.matrix && M[..] == s.M && F[..] == s.F
      && C[..] == s.C && fVars[..] == s.fv && isMDone == s.isMDone && m[..] == s.m
      && |s.C| <= |s.b| && BasisIn(s.C, |s.fv|) && fValue == FValue(s.fv, s.C, s.b, |s.C|)
    }

    /** Copies every array into a fresh one and computes fValue
        (SimplexSnap.cs:21-39). */
    constructor (b: seq<real>, matrix: seq<seq<real>>, M: seq<real>, F: seq<real>,
                 C: seq<nat>, fVars: seq<real>, isMDone: bool, m: seq<bool>)
      requires CopyableRows(matrix) && |C| <= |b| && BasisIn(C, |fVars|)
      ensures fresh(Repr - {this})
      ensures this.b[..] == b && this.M[..] == M && this.F[..] == F && this.C[..] == C
      ensures this.fVars[..] == fVars && this.isMDone == isMDone && this.m[..] == m
      ensures this.matrix.Length0 == |matrix| && this.matrix.Length1 == CopyWidth(matrix)
      ensures forall i, j :: 0 <= i < |matrix| && 0 <= j < CopyWidth(matrix) ==> this.matrix[i, j] == matrix[i][j]
      ensures fValue == FValue(fVars, C, b, |C|)
      ensures Rectangular(matrix, CopyWidth(matrix)) ==> Records(State(fVars, matrix, b, m, M, F, C, isMDone))
    {
      var bb := Copy(b);
      var mm := Copy2(matrix);
      var MM := Copy(M);
      var FF := Copy(F);
      var CC := Copy(C);
      var ff := Copy(fVars);
      var flags := Copy(m);
      var value := ObjectiveValue(fVars, C, b);
      this.b, this.matrix, this.M, this.F, this.C := bb, mm, MM, FF, CC;
      this.isMDone, this.m, this.fVars, this.fValue := isMDone, flags, ff, value;
      Repr := {this, bb, mm, MM, FF, CC, ff, flags};
      new;
      if Rectangular(matrix, CopyWidth(matrix)) {
        GridExt(mm, matrix);
      }
    }
  }
}

/** The variable sign substitution of Algorithms/RevisedSimplex.cs and its
    inverse, as reference definitions: x >= 0, int and bin variables keep
    their column, x <= 0 becomes x = -x', a free variable becomes x = x1 - x2
    over two adjacent columns, and every binary variable gets a row x <= 1. */
module RevisedTransform {
  import opened Common
  import opened RevisedMatrix

  datatype SignType = Positive | Negative | Unrestricted | Integer | Binary

  /** One entry of variableTransformations. Its C# Type string ("positive",
      "negative", "unrestricted", "integer", "binary") is the sign type it was
      made for; the negative part's index is set for free variables only. */
  datatype Transformation = Transformation(kind: SignType, originalIndex: nat, transformedIndex: nat,
                                           transformedIndexNeg: Option<nat>)

  /** How many transformed columns a variable of this sign takes. */
  function Columns(s: SignType): nat {
    if s == Unrestricted then 2 else 1
  }

  /** newVarIndex once the first k variables are transformed. */
  function Width(signs: seq<SignType>, k: nat): (w: nat)
    requires k <= |signs|
    ensures w >= k
  {
    if k == 0 then 0 else Width(signs, k - 1) + Columns(signs[k - 1])
  }

  /** The number of free variables among the first k. */
  function CountFree(signs: seq<SignType>, k: nat): nat
    requires k <= |signs|
  {
    if k == 0 then 0 else CountFree(signs, k - 1) + (if signs[k - 1] == Unrestricted then 1 else 0)
  }

  /** There are n plus the number of free variables transformed columns. */
  lemma {:induction false} WidthCountsFree(signs: seq<SignType>, k: nat)
    requires k <= |signs|
    ensures Width(signs, k) == k + CountFree(signs, k)
  {
    if k > 0 {
      WidthCountsFree(signs, k - 1);
    }
  }

  lemma {:induction false} WidthMonotone(signs: seq<SignType>, i: nat, k: nat)
    requires i <= k <= |signs|
    ensures Width(signs, i) <= Width(signs, k)
    ensures i < k ==> Width(signs, i) + Columns(signs[i]) <= Width(signs, k)
  {
    if i < k {
      WidthMonotone(signs, i, k - 1);
    }
  }

  /** The record made for variable i. */
  function Record(signs: seq<SignType>, i: nat): Transformation
    requires i < |signs|
  {
    var t := Width(signs, i);
    Transformation(signs[i], i, t, if signs[i] == Unrestricted then Some(t + 1) else None)
  }

  /** The records of the first k variables, in order. */
  function Records(signs: seq<SignType>, k: nat): (rs: seq<Transformation>)
    requires k <= |signs|
    ensures |rs| == k && forall i :: 0 <= i < k ==> rs[i] == Record(signs, i)
  {
    if k == 0 then [] else Records(signs, k - 1) + [Record(signs, k - 1)]
  }

  /** One record per variable, numbered in order, every transformed index
      below the final newVarIndex. */
  lemma RecordsIndices(signs: seq<SignType>, k: nat)
    requires k <= |signs|
    ensures forall i :: 0 <= i < k ==> Records(signs, k)[i].originalIndex == i
    ensures forall i :: 0 <= i < k ==> Records(signs, k)[i].transformedIndex < Width(signs, k)
    ensures forall i :: 0 <= i < k ==> match Records(signs, k)[i].transformedIndexNeg
      case None => signs[i] != Unrestricted
      case Some(t) => signs[i] == Unrestricted && t == Records(signs, k)[i].transformedIndex + 1 && t < Width(signs, k)
  {
    forall i | 0 <= i < k ensures Width(signs, i) + Columns(signs[i]) <= Width(signs, k) {
      WidthMonotone(signs, i, k);
    }
  }

  /** The transformed coefficients of one original coefficient. */
  function Part(v: real, s: SignType): (p: seq<real>)
    ensures |p| == Columns(s)
  {
    match s
    case Negative => [-v]
    case Unrestricted => [v, -v]
    case _ => [v]
  }

  /** The first k coefficients of v (objective or constraint row) after the substitution. */
  function Substituted(v: seq<real>, signs: seq<SignType>, k: nat): (r: seq<real>)
    requires k <= |v| && k <= |signs|
    ensures |r| == Width(signs, k)
  {
    if k == 0 then [] else Substituted(v, signs, k - 1) + Part(v[k - 1], signs[k - 1])
  }

  /** The transformed row: the substituted coefficients, then the RHS and the type of the row. */
  function TransformedRow(row: seq<real>, signs: seq<SignType>, n: nat): (r: seq<real>)
    requires n <= |row| && 2 <= |row| && n <= |signs|
    ensures |r| == Width(signs, n) + 2
  {
    Substituted(row, signs, n) + [row[|row| - 2], row[|row| - 1]]
  }

  /** Every original row transformed. */
  function TransformedRows(rows: seq<seq<real>>, signs: seq<SignType>, n: nat): (r: seq<seq<real>>)
    requires n <= |signs| && forall j :: 0 <= j < |rows| ==> n <= |rows[j]| && 2 <= |rows[j]|
    ensures |r| == |rows| && forall j :: 0 <= j < |rows| ==> r[j] == TransformedRow(rows[j], signs, n)
  {
    seq(|rows|, j requires 0 <= j < |rows| => TransformedRow(rows[j], signs, n))
  }

  /** The transformed column of every binary variable among the first k. */
  function BinaryIndices(signs: seq<SignType>, k: nat): (b: seq<nat>)
    requires k <= |signs|
    ensures forall q :: 0 <= q < |b| ==> b[q] < Width(signs, k)
  {
    if k == 0 then []
    else BinaryIndices(signs, k - 1) + (if signs[k - 1] == Binary then [Width(signs, k - 1)] else [])
  }

  /** The row x_b <= 1: a 1 at column b, RHS 1, type -1. */
  function BinaryRow(w: nat, b: nat): (r: seq<real>)
    requires b < w
    ensures |r| == w + 2
  {
    seq(w, q requires 0 <= q < w => if q == b then 1.0 else 0.0) + [1.0, -1.0]
  }

  function BinaryRows(w: nat, bs: seq<nat>): (rs: seq<seq<real>>)
    requires forall q :: 0 <= q < |bs| ==> bs[q] < w
    ensures |rs| == |bs| && forall q :: 0 <= q < |bs| ==> rs[q] == BinaryRow(w, bs[q])
  {
    seq(|bs|, q requires 0 <= q < |bs| => BinaryRow(w, bs[q]))
  }

  // ---------------------------------------------------------------------
  // The substitution preserves the problem

  /** The sum over i < k of a[i] * b[i], added left to right. */
  function Inner(a: seq<real>, b: seq<real>, k: nat): real
    requires k <= |a| && k <= |b|
  {
    if k == 0 then 0.0 else Inner(a, b, k - 1) + a[k - 1] * b[k - 1]
  }

  lemma InnerStep(a: seq<real>, b: seq<real>, k: nat)
    requires 0 < k <= |a| && k <= |b|
    ensures Inner(a, b, k) == Inner(a, b, k - 1) + a[k - 1] * b[k - 1]
  {
  }

  lemma {:induction false} InnerPrefix(a: seq<real>, b: seq<real>, a2: seq<real>, b2: seq<real>, k: nat)
    requires k <= |a| && k <= |b| && k <= |a2| && k <= |b2|
    requires forall i :: 0 <= i < k ==> a[i] == a2[i] && b[i] == b2[i]
    ensures Inner(a, b, k) == Inner(a2, b2, k)
  {
    if k > 0 {
      InnerPrefix(a, b, a2, b2, k - 1);
    }
  }

  lemma {:induction false} InnerAppend(a: seq<real>, b: seq<real>, c: seq<real>, d: seq<real>, j: nat)
    requires |a| == |b| && j <= |c| && j <= |d|
    ensures Inner(a + c, b + d, |a| + j) == Inner(a, b, |a|) + Inner(c, d, j)
  {
    if j > 0 {
      InnerAppend(a, b, c, d, j - 1);
      assert (a + c)[|a| + j - 1] == c[j - 1] && (b + d)[|a| + j - 1] == d[j - 1];
    } else {
      InnerPrefix(a + c, b + d, a, b, |a|);
    }
  }

  /** The left-hand side of a binary row is the value of its variable's column,
      so the row states x_b <= 1. */
  lemma {:induction false} BinaryRowSelects(w: nat, b: nat, y: seq<real>, k: nat)
    requires b < w && k <= w <= |y|
    ensures Inner(BinaryRow(w, b), y, k) == if b < k then y[b] else 0.0
  {
    if k > 0 {
      BinaryRowSelects(w, b, y, k - 1);
    }
  }

  /** The binary row of a binary variable holds for the lifted solution
      exactly when the variable is at most 1. */
  lemma BinaryRowBound(x: seq<real>, signs: seq<SignType>, n: nat, i: nat)
    requires i < n <= |x| && n <= |signs| && signs[i] == Binary
    ensures var w := Width(signs, n);
      Width(signs, i) < w && (Inner(BinaryRow(w, Width(signs, i)), Lift(x, signs, n), w) <= 1.0 <==> x[i] <= 1.0)
  {
    var w := Width(signs, n);
    LiftAt(x, signs, i, n, 0);
    BinaryRowSelects(w, Width(signs, i), Lift(x, signs, n), w);
  }

  /** A value of an original variable as values of its transformed columns:
      x' = -x for x <= 0, and the positive and negative parts for a free x. */
  function LiftPart(x: real, s: SignType): (p: seq<real>)
    ensures |p| == Columns(s)
  {
    match s
    case Negative => [-x]
    case Unrestricted => if x >= 0.0 then [x, 0.0] else [0.0, -x]
    case _ => [x]
  }

  /** The transformed solution of the first k original values. */
  function Lift(x: seq<real>, signs: seq<SignType>, k: nat): (r: seq<real>)
    requires k <= |x| && k <= |signs|
    ensures |r| == Width(signs, k)
  {
    if k == 0 then [] else Lift(x, signs, k - 1) + LiftPart(x[k - 1], signs[k - 1])
  }

  /** x meets its sign restrictions: x >= 0 for +, int and bin, x <= 0 for -. */
  predicate SignsHold(x: seq<real>, signs: seq<SignType>)
    requires |x| <= |signs|
  {
    forall i :: 0 <= i < |x| ==> match signs[i]
      case Negative => x[i] <= 0.0
      case Unrestricted => true
      case _ => x[i] >= 0.0
  }

  /** A solution meeting its sign restrictions becomes a non-negative transformed solution. */
  lemma {:induction false} LiftNonNegative(x: seq<real>, signs: seq<SignType>, k: nat)
    requires k <= |x| <= |signs| && SignsHold(x, signs)
    ensures forall q :: 0 <= q < Width(signs, k) ==> Lift(x, signs, k)[q] >= 0.0
  {
    if k > 0 {
      LiftNonNegative(x, signs, k - 1);
      var L := Lift(x, signs, k);
      assert L == Lift(x, signs, k - 1) + LiftPart(x[k - 1], signs[k - 1]);
    }
  }

  /** The objective and every constraint left-hand side keep their value:
      the substituted coefficients against the transformed solution give the
      original coefficients against the original solution. */
  lemma {:induction false} SubstitutionPreservesValue(v: seq<real>, x: seq<real>, signs: seq<SignType>, k: nat)
    requires k <= |v| && k <= |x| && k <= |signs|
    ensures Inner(Substituted(v, signs, k), Lift(x, signs, k), Width(signs, k)) == Inner(v, x, k)
  {
    if k > 0 {
      InnerStep(v, x, k);
      SubstitutionPreservesValue(v, x, signs, k - 1);
      var S, L := Substituted(v, signs, k - 1), Lift(x, signs, k - 1);
      var P, Q := Part(v[k - 1], signs[k - 1]), LiftPart(x[k - 1], signs[k - 1]);
      PartValue(v[k - 1], x[k - 1], signs[k - 1]);
      SumOfParts(S, L, P, Q, Inner(v, x, k - 1), v[k - 1] * x[k - 1]);
    }
  }

  lemma SumOfParts(S: seq<real>, L: seq<real>, P: seq<real>, Q: seq<real>, c: real, y: real)
    requires |S| == |L| && |P| <= |Q| && Inner(S, L, |S|) == c && Inner(P, Q, |P|) == y
    ensures Inner(S + P, L + Q, |S| + |P|) == c + y
  {
    InnerAppend(S, L, P, Q, |P|);
  }

  /** One coefficient against its lifted value: c * x, whatever the sign. */
  lemma PartValue(c: real, x: real, s: SignType)
    ensures Inner(Part(c, s), LiftPart(x, s), Columns(s)) == c * x
  {
    var P, L := Part(c, s), LiftPart(x, s);
    if s == Unrestricted {
      assert Inner(P, L, 2) == P[0] * L[0] + P[1] * L[1];
      if x >= 0.0 {
        assert P[0] * L[0] + P[1] * L[1] == c * x + (-c) * 0.0;
      } else {
        assert P[0] * L[0] + P[1] * L[1] == c * 0.0 + (-c) * (-x);
      }
    } else {
      assert Inner(P, L, 1) == P[0] * L[0];
    }
  }

  // ---------------------------------------------------------------------
  // TransformSolutionBack (RevisedSimplex.cs:199-243)

  /** The largest originalIndex among the records (Enumerable.Max). */
  function MaxOriginal(ts: seq<Transformation>): (m: nat)
    requires |ts| > 0
    ensures forall i :: 0 <= i < |ts| ==> ts[i].originalIndex <= m
    ensures exists i :: 0 <= i < |ts| && ts[i].originalIndex == m
  {
    if |ts| == 1 then ts[0].originalIndex
    else
      var m := MaxOriginal(ts[..|ts| - 1]);
      assert forall i :: 0 <= i < |ts| - 1 ==> ts[..|ts| - 1][i] == ts[i];
      if ts[|ts| - 1].originalIndex > m then ts[|ts| - 1].originalIndex else m
  }

  /** What one record writes into the original solution: a copy, the negation,
      or x1 - x2, when every index it reads is inside the transformed solution. */
  function ApplyOne(acc: seq<real>, t: Transformation, sol: seq<real>): (r: seq<real>)
    requires t.originalIndex < |acc|
    ensures |r| == |acc|
  {
    var ti := t.transformedIndex;
    match t.kind
    case Negative => if ti < |sol| then acc[t.originalIndex := -sol[ti]] else acc
    case Unrestricted =>
      if ti < |sol| && t.transformedIndexNeg.Some? && t.transformedIndexNeg.value < |sol|
      then acc[t.originalIndex := sol[ti] - sol[t.transformedIndexNeg.value]] else acc
    case _ => if ti < |sol| then acc[t.originalIndex := sol[ti]] else acc
  }

  /** The records applied in order to acc. */
  function ApplyAll(ts: seq<Transformation>, sol: seq<real>, acc: seq<real>): (r: seq<real>)
    requires forall i :: 0 <= i < |ts| ==> ts[i].originalIndex < |acc|
    ensures |r| == |acc|
  {
    if |ts| == 0 then acc
    else ApplyOne(ApplyAll(ts[..|ts| - 1], sol, acc), ts[|ts| - 1], sol)
  }

  function Zeros(n: nat): (z: seq<real>)
    ensures |z| == n && forall i :: 0 <= i < n ==> z[i] == 0.0
  {
    seq(n, i => 0.0)
  }

  /** The original solution: max originalIndex + 1 values, zero unless a
      record writes them; no records at all is the exception of Max. */
  function SolutionBack(ts: seq<Transformation>, sol: seq<real>): (r: Result<seq<real>>)
    ensures r.Fail? <==> |ts| == 0
    ensures r.Ok? ==> |r.value| == MaxOriginal(ts) + 1
  {
    if |ts| == 0 then Fail(NoElements) else Ok(ApplyAll(ts, sol, Zeros(MaxOriginal(ts) + 1)))
  }

  /** Where the transformed columns of variable i sit in the lifted solution. */
  lemma {:induction false} LiftAt(x: seq<real>, signs: seq<SignType>, i: nat, k: nat, q: nat)
    requires i < k <= |x| && k <= |signs| && q < Columns(signs[i])
    ensures Width(signs, i) + q < Width(signs, k)
    ensures Lift(x, signs, k)[Width(signs, i) + q] == LiftPart(x[i], signs[i])[q]
  {
    WidthMonotone(signs, i, k);
    if i < k - 1 {
      LiftAt(x, signs, i, k - 1, q);
    }
  }

  /** Each record restores its own variable from the lifted solution. */
  lemma RecordRestores(x: seq<real>, signs: seq<SignType>, n: nat, i: nat, acc: seq<real>)
    requires i < n <= |x| && n <= |signs| && i < |acc|
    ensures ApplyOne(acc, Record(signs, i), Lift(x, signs, n)) == acc[i := x[i]]
  {
    var L := Lift(x, signs, n);
    var t := Width(signs, i);
    LiftAt(x, signs, i, n, 0);
    if signs[i] == Unrestricted {
      LiftAt(x, signs, i, n, 1);
      assert L[t] - L[t + 1] == x[i];
    }
  }

  lemma {:induction false} ApplyRecordsPrefix(x: seq<real>, signs: seq<SignType>, n: nat, k: nat)
    requires k <= n <= |x| && n <= |signs|
    ensures ApplyAll(Records(signs, k), Lift(x, signs, n), Zeros(n)) == x[..k] + Zeros(n - k)
  {
    if k > 0 {
      ApplyRecordsPrefix(x, signs, n, k - 1);
      var L := Lift(x, signs, n);
      ApplyRecordsStep(signs, k, L, Zeros(n));
      var acc := x[..k - 1] + Zeros(n - k + 1);
      RecordRestores(x, signs, n, k - 1, acc);
      WriteNext(x, n, k);
    } else {
      assert x[..0] + Zeros(n) == Zeros(n);
    }
  }

  /** Applying the records of k variables is applying those of k - 1, then the last. */
  lemma ApplyRecordsStep(signs: seq<SignType>, k: nat, sol: seq<real>, acc: seq<real>)
    requires 0 < k <= |signs| && k <= |acc|
    ensures ApplyAll(Records(signs, k), sol, acc) == ApplyOne(ApplyAll(Records(signs, k - 1), sol, acc), Record(signs, k - 1), sol)
  {
    var rs := Records(signs, k);
    assert rs[..k - 1] == Records(signs, k - 1);
  }

  /** Writing x[k-1] after the first k - 1 values of x extends the prefix by one. */
  lemma WriteNext(x: seq<real>, n: nat, k: nat)
    requires 0 < k <= n <= |x|
    ensures (x[..k - 1] + Zeros(n - k + 1))[k - 1 := x[k - 1]] == x[..k] + Zeros(n - k)
  {
    var lhs, rhs := (x[..k - 1] + Zeros(n - k + 1))[k - 1 := x[k - 1]], x[..k] + Zeros(n - k);
    forall q | 0 <= q < n ensures lhs[q] == rhs[q] {
    }
  }

  /** The round trip: transforming a solution back after lifting it with the
      records of all n variables gives the solution itself. */
  lemma SolutionBackRoundTrip(x: seq<real>, signs: seq<SignType>)
    requires 0 < |x| <= |signs|
    ensures SolutionBack(Records(signs, |x|), Lift(x, signs, |x|)) == Ok(x)
  {
    var n := |x|;
    var rs := Records(signs, n);
    assert MaxOriginal(rs) == n - 1 by {
      assert rs[n - 1].originalIndex == n - 1;
    }
    ApplyRecordsPrefix(x, signs, n, n);
    assert x[..n] + Zeros(0) == x;
  }
}

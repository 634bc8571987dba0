/** DualSimplexSolver.cs: a dense (m+1) x (n+1) tableau, z-row at row 0 and
    RHS in column n, solved by dual simplex while some RHS is negative and by
    primal simplex afterwards.  The tableau is an array2<real> updated in
    place; the specification functions below describe the same tableau as a
    sequence of rows. */
module DualSimplexSpec {
  import opened Common

  /** The tolerance of the pivot, the selection rules and the elimination. */
  const PivotTol: real := 1.0e-12
  /** The tolerance GuessInitialBasis uses to recognise 1 and 0 entries. */
  const UnitTol: real := 1.0e-9

  /** Thrown stands for the IndexOutOfRangeException of the pivot
      announcement, which looks up the name of the leaving basic column: a
      basis entry equal to n (a padding entry when m = n + 1) names no
      variable. Solve then returns nothing. */
  datatype SolveStatus = Optimal | Infeasible | Unbounded | OutOfFuel | Thrown
  datatype SolveResult = SolveResult(status: SolveStatus, values: map<int, real>, objective: real)

  /** The printed pivot announcements "[Dual] Pivot ..." and "[Primal] Pivot ...". */
  datatype Phase = DualPhase | PrimalPhase
  datatype PivotStep = PivotStep(phase: Phase, row: nat, col: nat)

  // ---------------------------------------------------------------------
  // Tableaus as sequences of rows

  /** Index of the RHS column. */
  function Rhs(G: seq<seq<real>>): nat
    requires IsGrid(G)
  {
    |G[0]| - 1
  }

  /** Row r divided by its entry in column j. */
  function DividedRow(G: seq<seq<real>>, r: nat, j: nat): (H: seq<seq<real>>)
    requires IsGrid(G) && r < |G| && j < |G[0]| && G[r][j] != 0.0
    ensures |H| == |G| && IsGrid(H) && |H[0]| == |G[0]|
  {
    G[r := seq(|G[r]|, k requires 0 <= k < |G[r]| => G[r][k] / G[r][j])]
  }

  /** Row a less f times row b. */
  function RowMinus(a: seq<real>, f: real, b: seq<real>): (c: seq<real>)
    requires |a| == |b|
    ensures |c| == |a|
  {
    seq(|a|, k requires 0 <= k < |a| => a[k] - f * b[k])
  }

  /** Every row other than r whose column-j entry is not below PivotTol loses
      that multiple of row r; the rows below the tolerance are skipped. */
  function Eliminated(G: seq<seq<real>>, r: nat, j: nat): (H: seq<seq<real>>)
    requires IsGrid(G) && r < |G| && j < |G[0]|
    ensures |H| == |G| && IsGrid(H) && |H[0]| == |G[0]|
  {
    seq(|G|, i requires 0 <= i < |G| =>
      if i == r || Abs(G[i][j]) < PivotTol then G[i]
      else RowMinus(G[i], G[i][j], G[r]))
  }

  /** The row operation shared by Pivot and CanonicalizeToBasis: row r is
      divided by its entry in column j when `divide` holds, then column j is
      eliminated from the other rows. */
  function Reduced(G: seq<seq<real>>, r: nat, j: nat, divide: bool): (H: seq<seq<real>>)
    requires IsGrid(G) && r < |G| && j < |G[0]|
    requires divide ==> G[r][j] != 0.0
    ensures |H| == |G| && IsGrid(H) && |H[0]| == |G[0]|
  {
    if divide then Eliminated(DividedRow(G, r, j), r, j) else Eliminated(G, r, j)
  }

  /** After a dividing reduction, column j is the unit vector of row r except
      in the rows whose entry was already below PivotTol, which are unchanged;
      without division the rows below the tolerance are still unchanged. */
  lemma ReducedColumn(G: seq<seq<real>>, r: nat, j: nat, divide: bool)
    requires IsGrid(G) && r < |G| && j < |G[0]|
    requires divide ==> G[r][j] != 0.0
    ensures divide ==> Reduced(G, r, j, divide)[r][j] == 1.0
    ensures divide ==> forall k :: 0 <= k < |G[0]| ==> Reduced(G, r, j, divide)[r][k] == G[r][k] / G[r][j]
    ensures divide ==> forall i :: 0 <= i < |G| && i != r && Abs(G[i][j]) >= PivotTol ==> Reduced(G, r, j, divide)[i][j] == 0.0
    ensures forall i :: 0 <= i < |G| && i != r && Abs(G[i][j]) < PivotTol ==> Reduced(G, r, j, divide)[i] == G[i]
  {
    var H := Reduced(G, r, j, divide);
    if divide {
      var D := DividedRow(G, r, j);
      assert D[r][j] == G[r][j] / G[r][j] == 1.0;
      forall i | 0 <= i < |G| && i != r && Abs(G[i][j]) >= PivotTol ensures H[i][j] == 0.0 {
        assert D[i] == G[i];
        assert H[i] == RowMinus(D[i], D[i][j], D[r]);
        assert H[i][j] == D[i][j] - D[i][j] * D[r][j];
      }
    }
  }

  /** The tableau after pivoting on (prow, pcol). */
  function Pivoted(G: seq<seq<real>>, prow: nat, pcol: nat): (H: seq<seq<real>>)
    requires IsGrid(G) && prow < |G| && pcol < |G[0]| && Abs(G[prow][pcol]) >= PivotTol
    ensures |H| == |G| && IsGrid(H) && |H[0]| == |G[0]|
  {
    Reduced(G, prow, pcol, true)
  }

  /** Pivoting on (prow, pcol) divides the pivot row by the pivot and makes
      column pcol the unit vector of row prow, except in the rows whose entry
      was already below PivotTol, which are left as they were. */
  lemma PivotedColumn(G: seq<seq<real>>, prow: nat, pcol: nat)
    requires IsGrid(G) && prow < |G| && pcol < |G[0]| && Abs(G[prow][pcol]) >= PivotTol
    ensures Pivoted(G, prow, pcol)[prow][pcol] == 1.0
    ensures forall k :: 0 <= k < |G[0]| ==> Pivoted(G, prow, pcol)[prow][k] == G[prow][k] / G[prow][pcol]
    ensures forall i :: 0 <= i < |G| && i != prow && Abs(G[i][pcol]) >= PivotTol ==> Pivoted(G, prow, pcol)[i][pcol] == 0.0
    ensures forall i :: 0 <= i < |G| && i != prow && Abs(G[i][pcol]) < PivotTol ==> Pivoted(G, prow, pcol)[i] == G[i]
  {
    ReducedColumn(G, prow, pcol, true);
  }

  /** Step r of CanonicalizeToBasis, on the column of basic[r-1]. */
  function CanonStep(G: seq<seq<real>>, basic: seq<int>, r: nat): (H: seq<seq<real>>)
    requires IsGrid(G) && 1 <= r < |G| && r <= |basic| && 0 <= basic[r - 1] < |G[0]|
    ensures |H| == |G| && IsGrid(H) && |H[0]| == |G[0]|
  {
    Reduced(G, r, basic[r - 1], Abs(G[r][basic[r - 1]]) > PivotTol)
  }

  /** The tableau after steps 1..r of CanonicalizeToBasis. */
  function Canonicalized(G: seq<seq<real>>, basic: seq<int>, r: nat): (H: seq<seq<real>>)
    requires IsGrid(G) && r < |G| && r <= |basic|
    requires forall k :: 0 <= k < r ==> 0 <= basic[k] < |G[0]|
    ensures |H| == |G| && IsGrid(H) && |H[0]| == |G[0]|
    decreases r
  {
    if r == 0 then G else CanonStep(Canonicalized(G, basic, r - 1), basic, r)
  }
  /** One more step of Canonicalized; stated for the loop of CanonicalizeToBasis. */
  lemma CanonicalizedNext(G: seq<seq<real>>, basic: seq<int>, r: nat)
    requires IsGrid(G) && r + 1 < |G| && r + 1 <= |basic|
    requires forall k :: 0 <= k <= r ==> 0 <= basic[k] < |G[0]|
    ensures Canonicalized(G, basic, r + 1) == CanonStep(Canonicalized(G, basic, r), basic, r + 1)
  {
  }


  /** Column j is exactly the unit vector of row r (z-row included). */
  predicate ExactUnitColumn(G: seq<seq<real>>, j: nat, r: nat)
    requires IsGrid(G) && j < |G[0]|
  {
    forall i :: 0 <= i < |G| ==> G[i][j] == (if i == r then 1.0 else 0.0)
  }

  /** For every row, the declared basic column is already its unit vector. */
  predicate InCanonicalForm(G: seq<seq<real>>, basic: seq<int>, r: nat)
    requires IsGrid(G) && r <= |basic|
  {
    forall k :: 0 <= k < r ==> 0 <= basic[k] < |G[0]| && ExactUnitColumn(G, basic[k], k + 1)
  }

  lemma ReduceOnUnitColumnIsIdentity(G: seq<seq<real>>, r: nat, j: nat)
    requires IsGrid(G) && r < |G| && j < |G[0]| && ExactUnitColumn(G, j, r)
    ensures Reduced(G, r, j, true) == G
  {
    var H := Reduced(G, r, j, true);
    ReducedColumn(G, r, j, true);
    forall i | 0 <= i < |G| ensures H[i] == G[i] {
      if i == r {
        assert G[r][j] == 1.0;
        assert forall k :: 0 <= k < |G[r]| ==> H[r][k] == G[r][k] / 1.0;
      }
    }
  }

  /** Canonicalising a tableau that is already in canonical form for the
      basis changes nothing. */
  lemma {:induction false} CanonicalizeIdempotent(G: seq<seq<real>>, basic: seq<int>, r: nat)
    requires IsGrid(G) && r < |G| && r <= |basic| && InCanonicalForm(G, basic, r)
    ensures Canonicalized(G, basic, r) == G
  {
    if r > 0 {
      CanonicalizeIdempotent(G, basic, r - 1);
      var j := basic[r - 1];
      assert ExactUnitColumn(G, j, r);
      assert G[r][j] == 1.0;
      ReduceOnUnitColumnIsIdentity(G, r, j);
    }
  }

  /** One step of canonicalisation on a usable pivot makes its column the
      unit vector of the row, up to the rows already below the tolerance. */
  lemma CanonStepMakesUnitColumn(G: seq<seq<real>>, basic: seq<int>, r: nat)
    requires IsGrid(G) && 1 <= r < |G| && r <= |basic| && 0 <= basic[r - 1] < |G[0]|
    requires Abs(G[r][basic[r - 1]]) > PivotTol
    ensures CanonStep(G, basic, r)[r][basic[r - 1]] == 1.0
    ensures forall i :: 0 <= i < |G| && i != r ==> Abs(CanonStep(G, basic, r)[i][basic[r - 1]]) < PivotTol
  {
    var H := CanonStep(G, basic, r);
    var j := basic[r - 1];
    ReducedColumn(G, r, j, true);
    forall i | 0 <= i < |G| && i != r ensures Abs(H[i][j]) < PivotTol {
      if Abs(G[i][j]) >= PivotTol {
        assert H[i][j] == 0.0;
      } else {
        assert H[i] == G[i];
      }
    }
  }

  // ---------------------------------------------------------------------
  // Selection rules, stated on the tableau

  predicate NoNegativeRhs(G: seq<seq<real>>)
    requires IsGrid(G)
  {
    forall r :: 1 <= r < |G| ==> G[r][Rhs(G)] >= -PivotTol
  }

  /** r is the first row of 1..m holding the smallest RHS, which is negative. */
  predicate MostNegativeRhsRow(G: seq<seq<real>>, r: int)
    requires IsGrid(G)
  {
    && 1 <= r < |G| && G[r][Rhs(G)] < -PivotTol
    && (forall k :: 1 <= k < |G| ==> G[r][Rhs(G)] <= G[k][Rhs(G)])
    && (forall k :: 1 <= k < r ==> G[r][Rhs(G)] < G[k][Rhs(G)])
  }

  predicate DualEligible(G: seq<seq<real>>, r: nat, j: nat)
    requires IsGrid(G) && r < |G| && j < |G[0]|
  {
    G[r][j] < -PivotTol && G[0][j] < -PivotTol
  }

  function DualTheta(G: seq<seq<real>>, r: nat, j: nat): real
    requires IsGrid(G) && r < |G| && j < |G[0]| && G[r][j] != 0.0
  {
    Abs(G[0][j] / G[r][j])
  }

  /** j minimises |z_j / a_rj| over the eligible columns, up to PivotTol, and
      every earlier eligible column has a strictly larger ratio. */
  predicate DualColumnChoice(G: seq<seq<real>>, r: nat, j: int)
    requires IsGrid(G) && r < |G|
  {
    && 0 <= j < Rhs(G) && DualEligible(G, r, j)
    && (forall k :: 0 <= k < Rhs(G) && DualEligible(G, r, k) ==> DualTheta(G, r, k) >= DualTheta(G, r, j) - PivotTol)
    && (forall k :: 0 <= k < j && DualEligible(G, r, k) ==> DualTheta(G, r, k) > DualTheta(G, r, j))
  }

  predicate ZRowOptimal(G: seq<seq<real>>)
    requires IsGrid(G)
  {
    forall j :: 0 <= j < Rhs(G) ==> G[0][j] >= -PivotTol
  }

  /** j is the earliest column whose z entry is the most negative, up to PivotTol. */
  predicate PrimalColumnChoice(G: seq<seq<real>>, j: int)
    requires IsGrid(G)
  {
    && 0 <= j < Rhs(G) && G[0][j] < -PivotTol
    && (forall k :: 0 <= k < Rhs(G) ==> G[0][k] >= G[0][j] - PivotTol)
    && (forall k :: 0 <= k < j ==> G[0][k] > G[0][j])
  }

  function RatioOf(G: seq<seq<real>>, r: nat, j: nat): real
    requires IsGrid(G) && r < |G| && j < |G[0]| && G[r][j] != 0.0
  {
    G[r][Rhs(G)] / G[r][j]
  }

  /** r minimises rhs/a over the rows with a > PivotTol, up to PivotTol, and
      every earlier such row has a strictly larger ratio. */
  predicate RatioRowChoice(G: seq<seq<real>>, j: nat, r: int)
    requires IsGrid(G) && j < |G[0]|
  {
    && 1 <= r < |G| && G[r][j] > PivotTol
    && (forall k :: 1 <= k < |G| && G[k][j] > PivotTol ==> RatioOf(G, k, j) >= RatioOf(G, r, j) - PivotTol)
    && (forall k :: 1 <= k < r && G[k][j] > PivotTol ==> RatioOf(G, k, j) > RatioOf(G, r, j))
  }

  predicate NoPositiveEntry(G: seq<seq<real>>, j: nat)
    requires IsGrid(G) && j < |G[0]|
  {
    forall r :: 1 <= r < |G| ==> G[r][j] <= PivotTol
  }

  // ---------------------------------------------------------------------
  // The basis guess

  predicate NearOne(v: real) { Abs(v - 1.0) < UnitTol }

  /** One entry close to 1, every other entry within UnitTol of 0. */
  predicate UnitVector(v: seq<real>) {
    exists i :: 0 <= i < |v| && NearOne(v[i]) && forall k :: 0 <= k < |v| && k != i ==> Abs(v[k]) <= UnitTol
  }

  predicate UnitColumn(A: seq<seq<real>>, j: nat)
    requires forall i :: 0 <= i < |A| ==> j < |A[i]|
  {
    UnitVector(Column(A, j))
  }

  /** The unit columns among 0..j-1, in increasing order. */
  function UnitColumns(A: seq<seq<real>>, w: nat, j: nat): seq<int>
    requires Rectangular(A, w) && j <= w
  {
    if j == 0 then [] else UnitColumns(A, w, j - 1) + (if UnitColumn(A, j - 1) then [j - 1] else [])
  }

  lemma {:induction false} UnitColumnsSound(A: seq<seq<real>>, w: nat, j: nat)
    requires Rectangular(A, w) && j <= w
    ensures forall p :: 0 <= p < |UnitColumns(A, w, j)| ==>
      0 <= UnitColumns(A, w, j)[p] < j && UnitColumn(A, UnitColumns(A, w, j)[p])
    ensures forall p, q :: 0 <= p < q < |UnitColumns(A, w, j)| ==> UnitColumns(A, w, j)[p] < UnitColumns(A, w, j)[q]
  {
    if j > 0 {
      UnitColumnsSound(A, w, j - 1);
      var prev := UnitColumns(A, w, j - 1);
      var last := if UnitColumn(A, j - 1) then [j - 1] else [];
      var s := UnitColumns(A, w, j);
      assert s == prev + last;
      forall p | 0 <= p < |s| ensures 0 <= s[p] < j && UnitColumn(A, s[p]) {
        if p >= |prev| {
          assert s[p] == last[p - |prev|] == j - 1;
        } else {
          assert s[p] == prev[p];
        }
      }
      forall p, q | 0 <= p < q < |s| ensures s[p] < s[q] {
        assert s[p] == prev[p];
        if q >= |prev| {
          assert s[q] == j - 1;
        } else {
          assert s[q] == prev[q];
        }
      }
    }
  }

  lemma {:induction false} UnitColumnsComplete(A: seq<seq<real>>, w: nat, j: nat, c: nat)
    requires Rectangular(A, w) && j <= w && c < j && UnitColumn(A, c)
    ensures c in UnitColumns(A, w, j)
  {
    var prev := UnitColumns(A, w, j - 1);
    var last := if UnitColumn(A, j - 1) then [j - 1] else [];
    assert UnitColumns(A, w, j) == prev + last;
    if c < j - 1 {
      UnitColumnsComplete(A, w, j - 1, c);
      assert c in prev;
    } else {
      assert last == [c];
    }
  }

  lemma {:induction false} UnitColumnsPrefix(A: seq<seq<real>>, w: nat, j: nat, l: nat)
    requires Rectangular(A, w) && j <= l <= w
    ensures UnitColumns(A, w, j) <= UnitColumns(A, w, l)
    decreases l - j
  {
    if j < l {
      UnitColumnsPrefix(A, w, j, l - 1);
    }
  }

  /** s extended up to length m by appending the current length each time. */
  function Padded(s: seq<int>, m: nat): (r: seq<int>)
    ensures |r| == if |s| < m then m else |s|
    ensures r[..|s|] == s
    ensures forall p :: |s| <= p < |r| ==> r[p] == p
    decreases m - |s|
  {
    if |s| >= m then s else Padded(s + [|s|], m)
  }

  /** What GuessInitialBasis returns: the first m unit columns of the m x w
      matrix A, then padding with the current count. */
  function GuessedBasis(A: seq<seq<real>>, w: nat): (basis: seq<int>)
    requires Rectangular(A, w)
    ensures |basis| == |A|
  {
    var u := UnitColumns(A, w, w);
    var k := if |u| < |A| then |u| else |A|;
    Padded(u[..k], |A|)
  }

  /** The guess has exactly m entries: strictly increasing unit columns, then
      each padding entry equal to its own position. */
  lemma GuessedBasisShape(A: seq<seq<real>>, w: nat)
    requires Rectangular(A, w)
    ensures var basis := GuessedBasis(A, w); var u := UnitColumns(A, w, w);
      var k := if |u| < |A| then |u| else |A|;
      && (forall p :: 0 <= p < k ==> 0 <= basis[p] < w && UnitColumn(A, basis[p]))
      && (forall p, q :: 0 <= p < q < k ==> basis[p] < basis[q])
      && (forall p :: k <= p < |A| ==> basis[p] == p)
      && (|A| <= w ==> forall p :: 0 <= p < |A| ==> 0 <= basis[p] < w)
      && (|A| <= w + 1 ==> forall p :: 0 <= p < |A| ==> 0 <= basis[p] <= w)
  {
    UnitColumnsSound(A, w, w);
    var basis := GuessedBasis(A, w);
    var u := UnitColumns(A, w, w);
    var k := if |u| < |A| then |u| else |A|;
    assert forall p :: 0 <= p < k ==> basis[p] == basis[..k][p] == u[p];
  }

  // ---------------------------------------------------------------------
  // Result extraction

  /** The value BuildResultFromTableau gives column j after rows 1..r: the
      RHS of the last of those rows whose basic variable is j, else 0. */
  function BasicValue(G: seq<seq<real>>, basic: seq<int>, j: int, r: nat): real
    requires IsGrid(G) && r < |G| && r <= |basic|
  {
    if r == 0 then 0.0
    else if basic[r - 1] == j then G[r][Rhs(G)]
    else BasicValue(G, basic, j, r - 1)
  }

  function ResultValues(G: seq<seq<real>>, basic: seq<int>): map<int, real>
    requires IsGrid(G) && |basic| == |G| - 1
  {
    var x := seq(Rhs(G), j requires 0 <= j < Rhs(G) => BasicValue(G, basic, j, |G| - 1));
    map j | 0 <= j < |x| :: x[j]
  }

  /** With a basis of distinct entries, each basic column reads the RHS of its
      row and every other column reads 0. */
  lemma {:induction false} BasicValueOfDistinctBasis(G: seq<seq<real>>, basic: seq<int>, j: int, r: nat)
    requires IsGrid(G) && r < |G| && r <= |basic|
    requires forall p, q :: 0 <= p < q < r ==> basic[p] != basic[q]
    ensures forall s :: 0 <= s < r && basic[s] == j ==> BasicValue(G, basic, j, r) == G[s + 1][Rhs(G)]
    ensures (forall s :: 0 <= s < r ==> basic[s] != j) ==> BasicValue(G, basic, j, r) == 0.0
  {
    if r > 0 {
      BasicValueOfDistinctBasis(G, basic, j, r - 1);
    }
  }
}

/** Specification of the list-of-lists dual simplex in Algorithms/DualSimplex.cs.
    A table is a sequence of rows; row 0 is the z-row and the last entry of
    every row is its right-hand side. Pivots build a fresh table, so every
    pivot is a function from a table to a table. */
module ListDualSimplexSpec {
  import opened Common

  type Table = seq<seq<real>>

  /** Phase 1 of DoDualSimplex stops once no right-hand side is below -1e-9. */
  const RhsEpsilon: real := 0.000000001

  function LastOf(row: seq<real>): real
    requires |row| >= 1
  {
    row[|row| - 1]
  }

  // ---------------------------------------------------------------------
  // Building the first table

  /** An input row: coefficients, the RHS, then the type flag (1 marks a >= row). */
  function FlagOf(row: seq<real>): real
    requires |row| >= 1
  {
    row[|row| - 1]
  }

  predicate IsExcessRow(row: seq<real>)
    requires |row| >= 1
  {
    FlagOf(row) == 1.0
  }

  /** The number of rows whose type flag is 1. */
  function CountExcess(rows: seq<seq<real>>): (k: nat)
    requires forall i :: 0 <= i < |rows| ==> |rows[i]| >= 1
    ensures k <= |rows|
  {
    if |rows| == 0 then 0
    else CountExcess(rows[..|rows| - 1]) + (if IsExcessRow(rows[|rows| - 1]) then 1 else 0)
  }

  /** The number of rows whose type flag is 1 or 2 (the count GetInput reports). */
  function CountFlagged(rows: seq<seq<real>>): (k: nat)
    requires forall i :: 0 <= i < |rows| ==> |rows[i]| >= 1
    ensures k <= |rows|
  {
    if |rows| == 0 then 0
    else
      var f := FlagOf(rows[|rows| - 1]);
      CountFlagged(rows[..|rows| - 1]) + (if f == 1.0 || f == 2.0 then 1 else 0)
  }

  /** The number of rows whose type flag is neither 1 nor 2. */
  function CountUnflagged(rows: seq<seq<real>>): (k: nat)
    requires forall i :: 0 <= i < |rows| ==> |rows[i]| >= 1
  {
    if |rows| == 0 then 0
    else
      var f := FlagOf(rows[|rows| - 1]);
      CountUnflagged(rows[..|rows| - 1]) + (if f != 1.0 && f != 2.0 then 1 else 0)
  }

  /** Every entry multiplied by -1. */
  function NegatedRow(row: seq<real>): (r: seq<real>)
    ensures |r| == |row| && forall j :: 0 <= j < |row| ==> r[j] == -1.0 * row[j]
  {
    seq(|row|, j requires 0 <= j < |row| => -1.0 * row[j])
  }

  /** A row after formulation: negated entirely when it is an excess row, then
      its flag dropped, leaving the coefficients and the RHS. */
  function FormulatedRow(row: seq<real>): (r: seq<real>)
    requires |row| >= 1
    ensures |r| == |row| - 1
    ensures forall j :: 0 <= j < |r| ==> r[j] == if IsExcessRow(row) then -1.0 * row[j] else row[j]
  {
    var signed := if IsExcessRow(row) then NegatedRow(row) else row;
    signed[..|row| - 1]
  }

  function FormulatedRows(rows: seq<seq<real>>): (r: seq<seq<real>>)
    requires forall i :: 0 <= i < |rows| ==> |rows[i]| >= 1
    ensures |r| == |rows| && forall i :: 0 <= i < |rows| ==> r[i] == FormulatedRow(rows[i])
  {
    seq(|rows|, i requires 0 <= i < |rows| => FormulatedRow(rows[i]))
  }

  /** The names prefix+start, prefix+(start+1), ..., count of them. */
  function NamesFrom(prefix: string, start: nat, count: nat): (names: seq<string>)
    ensures |names| == count
  {
    if count == 0 then [] else NamesFrom(prefix, start, count - 1) + [Name(prefix, start + count - 1)]
  }

  lemma {:induction false} NamesFromAt(prefix: string, start: nat, count: nat, k: nat)
    requires k < count
    ensures NamesFrom(prefix, start, count)[k] == Name(prefix, start + k)
  {
    if k < count - 1 {
      NamesFromAt(prefix, start, count - 1, k);
    }
  }

  /** The header DoFormulationOperation appends: x1..xn, e1..ek, then the s
      names continuing the same counter, s(k+1)..s(k+s), then "rhs". */
  function HeaderNames(n: nat, excess: nat, slack: nat): (h: seq<string>)
    ensures |h| == n + excess + slack + 1
  {
    NamesFrom("x", 1, n) + NamesFrom("e", 1, excess) + NamesFrom("s", excess + 1, slack) + ["rhs"]
  }

  /** The formulated rows fit the table: each holds its RHS after at most
      width-1 coefficients (the source indexes past the table otherwise). */
  predicate RowsFit(n: nat, rows: seq<seq<real>>) {
    forall i :: 0 <= i < |rows| ==> 1 <= |rows[i]| <= n + |rows| + 2
  }

  /** One entry of the first table: row 0 is -c then zeros; constraint row i
      holds its coefficients, a 1 in slack column n+i-1 and its RHS last. */
  function FormulationEntry(c: seq<real>, rows: seq<seq<real>>, i: nat, j: nat): real
    requires RowsFit(|c|, rows) && i <= |rows|
  {
    if i == 0 then (if j < |c| then -c[j] else 0.0)
    else
      var row := rows[i - 1];
      if j == |c| + |rows| then LastOf(row)
      else if j == i - 1 + |c| then 1.0
      else if j < |row| - 1 then row[j]
      else 0.0
  }

  /** The first table: |rows|+1 rows of width n + |rows| + 1. */
  function FormulationTable(c: seq<real>, rows: seq<seq<real>>): (T: Table)
    requires RowsFit(|c|, rows)
    ensures |T| == |rows| + 1 && Rectangular(T, |c| + |rows| + 1)
  {
    seq(|rows| + 1, i requires 0 <= i <= |rows| =>
      seq(|c| + |rows| + 1, j requires 0 <= j < |c| + |rows| + 1 => FormulationEntry(c, rows, i, j)))
  }

  // ---------------------------------------------------------------------
  // Pivoting

  /** The pivot row divided by the pivot; every other row has its entry in the
      pivot column times the new pivot row subtracted. */
  function PivotTable(T: Table, r: nat, c: nat): (P: Table)
    requires IsGrid(T) && r < |T| && c < |T[0]| && T[r][c] != 0.0
    ensures |P| == |T| && Rectangular(P, |T[0]|)
  {
    var p := seq(|T[r]|, j requires 0 <= j < |T[r]| => T[r][j] / T[r][c]);
    seq(|T|, i requires 0 <= i < |T| =>
      if i == r then p else seq(|T[i]|, j requires 0 <= j < |T[i]| => T[i][j] - T[i][c] * p[j]))
  }

  /** One pivot: the new table, where it pivoted, and the ratios it computed. */
  datatype Pivoting = Pivoting(table: Table, row: nat, col: nat, thetas: seq<ExtReal>)

  /** The positive finite values among the ratios. +inf never wins a minimum
      unless no finite positive value is present, so these decide every
      "smallest positive ratio" choice of the source. */
  function PositiveFinite(th: seq<ExtReal>): (r: seq<real>)
    ensures forall x :: x in r <==> Finite(x) in th && x > 0.0
  {
    if |th| == 0 then []
    else
      var rest := PositiveFinite(th[1..]);
      assert forall e :: e in th <==> e == th[0] || e in th[1..];
      if th[0].Finite? && th[0].r > 0.0 then [th[0].r] + rest else rest
  }

  // ---------------------------------------------------------------------
  // The dual pivot

  /** The dual pivot row: the first index of the most negative last entry, the
      z-row included; -1 when no last entry is negative. */
  function DualPivotRow(T: Table): int
    requires IsGrid(T)
  {
    var rhs := LastColumn(T);
    var neg := Filter(rhs, x => x < 0.0);
    if |neg| == 0 then -1 else IndexOf(rhs, MinOf(neg))
  }

  function DualRatio(T: Table, r: nat, j: nat): real
    requires IsGrid(T) && r < |T| && j < |T[0]| && T[r][j] != 0.0
  {
    Abs(T[0][j] / T[r][j])
  }

  /** The ratio |z_j / a_rj| of every column left of the RHS with a_rj < 0, +inf elsewhere. */
  function DualThetas(T: Table, r: nat): (th: seq<ExtReal>)
    requires IsGrid(T) && r < |T|
    ensures |th| == |T[0]| - 1
  {
    seq(|T[0]| - 1, j requires 0 <= j < |T[0]| - 1 =>
      if T[r][j] < 0.0 then Finite(DualRatio(T, r, j)) else PosInf)
  }

  /** The value the entering column must hold: 0 when every ratio is 0 or +inf,
      otherwise the smallest positive ratio (+inf when there is none). */
  function DualTarget(th: seq<ExtReal>): ExtReal {
    if forall j :: 0 <= j < |th| ==> th[j] == Finite(0.0) || th[j] == PosInf then Finite(0.0)
    else
      var pf := PositiveFinite(th);
      if |pf| == 0 then PosInf else Finite(MinOf(pf))
  }

  function DualPivotColumn(T: Table, r: nat): int
    requires IsGrid(T) && r < |T|
  {
    var th := DualThetas(T, r);
    IndexOf(th, DualTarget(th))
  }

  /** The dual step: no step when no last entry is negative or when the pivot
      row has no usable column. */
  function DualStep(T: Table): (s: Option<Pivoting>)
    requires IsGrid(T)
  {
    var r := DualPivotRow(T);
    if r < 0 then None
    else
      var th := DualThetas(T, r);
      var c := DualPivotColumn(T, r);
      if c < 0 then None
      else
        Some(Pivoting(PivotTable(T, r, c), r, c, th))
  }

  // ---------------------------------------------------------------------
  // The primal pivot

  predicate Entering(z: real, isMin: bool) {
    if isMin then z > 0.0 else z < 0.0
  }

  /** The z-row value the primal pivot enters at: the smallest positive entry
      for a min problem, the most negative one for a max problem, left of the RHS. */
  function PrimalEntering(T: Table, isMin: bool): Option<real>
    requires IsGrid(T)
  {
    var test := T[0][..|T[0]| - 1];
    var cand := if isMin then Filter(test, x => x > 0.0) else Filter(test, x => x < 0.0);
    if |cand| == 0 then None else Some(MinOf(cand))
  }

  /** The primal ratio rhs/a of rows 1.., +inf where the entering column holds 0. */
  function PrimalThetas(T: Table, c: nat): (th: seq<ExtReal>)
    requires IsGrid(T) && c < |T[0]|
    ensures |th| == |T| - 1
  {
    seq(|T| - 1, i requires 0 <= i < |T| - 1 =>
      if T[i + 1][c] != 0.0 then Finite(LastOf(T[i + 1]) / T[i + 1][c]) else PosInf)
  }

  predicate AllNegative(th: seq<ExtReal>) {
    forall i :: 0 <= i < |th| ==> th[i].Finite? && th[i].r < 0.0
  }

  /** The leaving row: the first row with the smallest positive finite ratio,
      or the first zero ratio when there is no positive one. */
  function PrimalLeaving(th: seq<ExtReal>): (row: Option<nat>)
    ensures row.Some? ==> 1 <= row.value <= |th| && th[row.value - 1].Finite?
  {
    if AllNegative(th) then None
    else
      var pf := PositiveFinite(th);
      if |pf| == 0 then
        if Finite(0.0) in th then Some(IndexOf(th, Finite(0.0)) + 1) else None
      else Some(IndexOf(th, Finite(MinOf(pf))) + 1)
  }

  /** The entering column: the first position of the entering value in the
      z-row, or -1 when there is none. */
  function PrimalColumn(T: Table, isMin: bool): (c: int)
    requires IsGrid(T)
    ensures -1 <= c < |T[0]| - 1
  {
    match PrimalEntering(T, isMin)
    case None => -1
    case Some(v) =>
      var test := T[0][..|T[0]| - 1];
      assert v in test;
      var k :| 0 <= k < |test| && test[k] == v;
      assert T[0][k] == v;
      IndexOf(T[0], v)
  }

  function PrimalStep(T: Table, isMin: bool): (s: Option<Pivoting>)
    requires IsGrid(T)
  {
    var c := PrimalColumn(T, isMin);
    if c < 0 then None
    else
      var th := PrimalThetas(T, c);
      match PrimalLeaving(th)
      case None => None
      case Some(r) => Some(Pivoting(PivotTable(T, r, c), r, c, th))
  }

  // ---------------------------------------------------------------------
  // Reading the final table

  /** The z-row (RHS excluded) admits no primal pivot. */
  predicate ObjectiveDone(T: Table, isMin: bool)
    requires IsGrid(T)
  {
    forall j :: 0 <= j < |T[0]| - 1 ==> if isMin then T[0][j] <= 0.0 else T[0][j] >= 0.0
  }

  predicate RhsAbove(T: Table, bound: real)
    requires IsGrid(T)
  {
    forall i :: 0 <= i < |T| ==> LastOf(T[i]) >= bound
  }

  function NonzeroCount(col: seq<real>): nat {
    if |col| == 0 then 0 else NonzeroCount(col[..|col| - 1]) + (if col[|col| - 1] != 0.0 then 1 else 0)
  }

  function AbsAll(col: seq<real>): (r: seq<real>)
    ensures |r| == |col| && forall i :: 0 <= i < |col| ==> r[i] == Abs(col[i])
  {
    seq(|col|, i requires 0 <= i < |col| => Abs(col[i]))
  }

  /** The value read for decision column k: the RHS of the first row whose
      entry has magnitude 1 when the column has exactly one nonzero entry, 0
      otherwise; None is the index failure when no entry has magnitude 1. */
  function ChangingValue(T: Table, k: nat): Option<real>
    requires IsGrid(T) && k < |T[0]|
  {
    var col := Column(T, k);
    if NonzeroCount(col) != 1 then Some(0.0)
    else
      var i := IndexOf(AbsAll(col), 1.0);
      if i < 0 then None else Some(LastOf(T[i]))
  }

  /** The decision values of a final table; empty when any column fails. */
  function ChangingVars(T: Table, lenObj: nat): seq<real>
    requires IsGrid(T) && lenObj <= |T[0]|
  {
    if forall k :: 0 <= k < lenObj ==> ChangingValue(T, k).Some?
    then seq(lenObj, k requires 0 <= k < lenObj => ChangingValue(T, k).value)
    else []
  }

  // ---------------------------------------------------------------------
  // Properties

  /** The two counts GetInput reports split the rows between them. */
  lemma {:induction false} FlagCountsPartition(rows: seq<seq<real>>)
    requires forall i :: 0 <= i < |rows| ==> |rows[i]| >= 1
    ensures CountFlagged(rows) + CountUnflagged(rows) == |rows|
  {
    if |rows| > 0 {
      FlagCountsPartition(rows[..|rows| - 1]);
    }
  }

  /** The one-letter prefix of header column i (or "rhs" for the last). */
  function HeaderPrefix(n: nat, excess: nat, slack: nat, i: nat): string {
    if i < n then "x" else if i < n + excess then "e" else if i < n + excess + slack then "s" else "rhs"
  }

  /** The number after the prefix of header column i. */
  function HeaderNumber(n: nat, excess: nat, i: nat): nat {
    if i < n then i + 1 else i - n + 1
  }

  /** Where each name sits in the header. */
  lemma HeaderEntry(n: nat, excess: nat, slack: nat, i: nat)
    requires i < n + excess + slack + 1
    ensures i < n + excess + slack ==>
      HeaderNames(n, excess, slack)[i] == Name(HeaderPrefix(n, excess, slack, i), HeaderNumber(n, excess, i))
    ensures i == n + excess + slack ==> HeaderNames(n, excess, slack)[i] == "rhs"
  {
    var h := HeaderNames(n, excess, slack);
    var A, B, C := NamesFrom("x", 1, n), NamesFrom("e", 1, excess), NamesFrom("s", excess + 1, slack);
    assert h == A + B + C + ["rhs"];
    var p, k := HeaderPrefix(n, excess, slack, i), HeaderNumber(n, excess, i);
    if i < n {
      assert h[i] == A[i];
      NamesFromAt("x", 1, n, i);
      assert p == "x" && k == 1 + i;
      assert h[i] == Name(p, k);
    } else if i < n + excess {
      var m := i - n;
      assert h[i] == B[m];
      NamesFromAt("e", 1, excess, m);
      assert p == "e" && k == 1 + m;
      assert h[i] == Name(p, k);
    } else if i < n + excess + slack {
      var m := i - n - excess;
      assert h[i] == C[m];
      NamesFromAt("s", excess + 1, slack, m);
      assert p == "s" && k == excess + 1 + m;
      assert h[i] == Name(p, k);
    } else {
      assert h[i] == "rhs";
    }
  }

  lemma NameHead(prefix: string, k: nat)
    requires |prefix| == 1
    ensures Name(prefix, k)[0] == prefix[0]
  {
    assert Name(prefix, k)[..1] == prefix;
  }

  /** Two header columns never share a name. */
  lemma HeaderPairDistinct(n: nat, excess: nat, slack: nat, i: nat, j: nat)
    requires i < j < n + excess + slack + 1
    ensures HeaderNames(n, excess, slack)[i] != HeaderNames(n, excess, slack)[j]
  {
    var h := HeaderNames(n, excess, slack);
    HeaderEntry(n, excess, slack, i);
    HeaderEntry(n, excess, slack, j);
    var p, q := HeaderPrefix(n, excess, slack, i), HeaderPrefix(n, excess, slack, j);
    var a, b := HeaderNumber(n, excess, i), HeaderNumber(n, excess, j);
    NameHead(p, a);
    if j < n + excess + slack {
      NameHead(q, b);
      if h[i] == h[j] {
        assert p[0] == q[0];
        assert p == q;
        NameInjective(p, a, b);
        assert false;
      }
    } else {
      assert h[j][0] == 'r';
    }
  }

  /** The header names are pairwise distinct. */
  lemma HeaderNamesDistinct(n: nat, excess: nat, slack: nat)
    ensures var h := HeaderNames(n, excess, slack);
      forall i, j :: 0 <= i < j < |h| ==> h[i] != h[j]
  {
    forall i: nat, j: nat | i < j < n + excess + slack + 1
      ensures HeaderNames(n, excess, slack)[i] != HeaderNames(n, excess, slack)[j]
    {
      HeaderPairDistinct(n, excess, slack, i, j);
    }
  }

  /** With at most n coefficients per row, the first table is row 0 = -c then
      zeros, and constraint row r holds its coefficients, zeros up to column n,
      an identity block in the slack columns and its RHS last. */
  lemma FormulationLayout(c: seq<real>, rows: seq<seq<real>>)
    requires RowsFit(|c|, rows)
    requires forall r :: 0 <= r < |rows| ==> |rows[r]| - 1 <= |c|
    ensures var T := FormulationTable(c, rows); var n, m := |c|, |rows|;
      IsGrid(T) && |T| == m + 1 && |T[0]| == n + m + 1
      && (forall j :: 0 <= j < n ==> T[0][j] == -c[j])
      && (forall j :: n <= j < n + m + 1 ==> T[0][j] == 0.0)
      && (forall r, j :: 0 <= r < m && 0 <= j < n ==>
            T[r + 1][j] == if j < |rows[r]| - 1 then rows[r][j] else 0.0)
      && (forall i, j :: 1 <= i <= m && n <= j < n + m ==> T[i][j] == if j - n == i - 1 then 1.0 else 0.0)
      && (forall i :: 1 <= i <= m ==> T[i][n + m] == LastOf(rows[i - 1]))
  {
  }

  /** A pivot turns the pivot column into a unit vector with its 1 in the pivot row. */
  lemma PivotTableUnitColumn(T: Table, r: nat, c: nat)
    requires IsGrid(T) && r < |T| && c < |T[0]| && T[r][c] != 0.0
    ensures var P := PivotTable(T, r, c);
      IsGrid(P) && |P| == |T| && |P[0]| == |T[0]|
      && forall i :: 0 <= i < |P| ==> P[i][c] == if i == r then 1.0 else 0.0
  {
    var P := PivotTable(T, r, c);
    assert T[r][c] / T[r][c] == 1.0;
    forall i | 0 <= i < |P| ensures P[i][c] == if i == r then 1.0 else 0.0 {
      if i != r {
        assert P[i][c] == T[i][c] - T[i][c] * (T[r][c] / T[r][c]);
      }
    }
  }

  /** Pivoting again on the same entry changes nothing. */
  lemma PivotTableIdempotent(T: Table, r: nat, c: nat)
    requires IsGrid(T) && r < |T| && c < |T[0]| && T[r][c] != 0.0
    ensures var P := PivotTable(T, r, c);
      P[r][c] == 1.0 && PivotTable(P, r, c) == P
  {
    var P := PivotTable(T, r, c);
    PivotTableUnitColumn(T, r, c);
    var Q := PivotTable(P, r, c);
    forall i | 0 <= i < |P| ensures Q[i] == P[i] {
      assert |Q[i]| == |P[i]|;
    }
  }

  /** The dual pivot row is -1 exactly when no last entry (z-row included) is
      negative; otherwise it is the first row holding the smallest last entry. */
  lemma DualPivotRowSpec(T: Table)
    requires IsGrid(T)
    ensures var r := DualPivotRow(T);
      -1 <= r < |T|
      && (r == -1 <==> forall i :: 0 <= i < |T| ==> LastOf(T[i]) >= 0.0)
      && (r >= 0 ==>
            LastOf(T[r]) < 0.0
            && (forall i :: 0 <= i < |T| ==> LastOf(T[r]) <= LastOf(T[i]))
            && (forall i :: 0 <= i < r ==> LastOf(T[r]) < LastOf(T[i])))
  {
    var rhs := LastColumn(T);
    var neg := Filter(rhs, x => x < 0.0);
    if |neg| == 0 {
      forall i | 0 <= i < |T| ensures LastOf(T[i]) >= 0.0 {
        assert rhs[i] in rhs;
      }
    } else {
      var m := MinOf(neg);
      assert neg[0] in neg;
      assert m in neg;
      forall i | 0 <= i < |T| ensures m <= LastOf(T[i]) {
        if rhs[i] < 0.0 {
          assert rhs[i] in rhs;
          assert rhs[i] in neg;
          var k :| 0 <= k < |neg| && neg[k] == rhs[i];
        }
      }
    }
  }

  /** The dual pivot column is -1 exactly when the pivot row has no negative
      entry left of the RHS. Otherwise it has a negative entry there and, when
      some eligible column has a nonzero z entry, it is the first eligible one
      with the smallest positive |z_j / a_rj|; when every eligible z entry is 0
      it is the first eligible column. */
  lemma DualPivotColumnSpec(T: Table, r: nat)
    requires IsGrid(T) && r < |T|
    ensures var c := DualPivotColumn(T, r); var w := |T[0]|;
      -1 <= c < w - 1
      && (c == -1 <==> forall j :: 0 <= j < w - 1 ==> T[r][j] >= 0.0)
      && (c >= 0 ==> T[r][c] < 0.0)
      && (c >= 0 && T[0][c] != 0.0 ==>
            forall j :: 0 <= j < w - 1 && T[r][j] < 0.0 && T[0][j] != 0.0 ==>
              DualRatio(T, r, c) <= DualRatio(T, r, j) && (j < c ==> DualRatio(T, r, c) < DualRatio(T, r, j)))
      && (c >= 0 && T[0][c] == 0.0 ==>
            (forall j :: 0 <= j < w - 1 && T[r][j] < 0.0 ==> T[0][j] == 0.0)
            && forall j :: 0 <= j < c ==> T[r][j] >= 0.0)
  {
    var th := DualThetas(T, r);
    if forall j :: 0 <= j < |th| ==> th[j] == Finite(0.0) || th[j] == PosInf {
      DualColumnAllZero(T, r);
    } else {
      DualColumnPositive(T, r);
    }
  }

  /** When every ratio is 0 or +inf, the column is the first eligible one. */
  lemma DualColumnAllZero(T: Table, r: nat)
    requires IsGrid(T) && r < |T|
    requires var th := DualThetas(T, r); forall j :: 0 <= j < |th| ==> th[j] == Finite(0.0) || th[j] == PosInf
    ensures var c := DualPivotColumn(T, r); var w := |T[0]|;
      (c == -1 <==> forall j :: 0 <= j < w - 1 ==> T[r][j] >= 0.0)
      && (c >= 0 ==>
            T[r][c] < 0.0 && T[0][c] == 0.0
            && (forall j :: 0 <= j < w - 1 && T[r][j] < 0.0 ==> T[0][j] == 0.0)
            && forall j :: 0 <= j < c ==> T[r][j] >= 0.0)
  {
    var th := DualThetas(T, r);
    var c := DualPivotColumn(T, r);
    var w := |T[0]|;
    assert DualTarget(th) == Finite(0.0);
    forall j | 0 <= j < w - 1 && T[r][j] < 0.0 ensures T[0][j] == 0.0 && th[j] == Finite(0.0) {
      assert th[j] == Finite(DualRatio(T, r, j));
      RatioZero(T[0][j], T[r][j]);
    }
    forall j | 0 <= j < c ensures T[r][j] >= 0.0 {
    }
  }

  /** Otherwise the column is the first eligible one with the smallest positive ratio. */
  lemma DualColumnPositive(T: Table, r: nat)
    requires IsGrid(T) && r < |T|
    requires var th := DualThetas(T, r); !forall j :: 0 <= j < |th| ==> th[j] == Finite(0.0) || th[j] == PosInf
    ensures var c := DualPivotColumn(T, r); var w := |T[0]|;
      c >= 0 && T[r][c] < 0.0 && T[0][c] != 0.0
      && forall j :: 0 <= j < w - 1 && T[r][j] < 0.0 && T[0][j] != 0.0 ==>
           DualRatio(T, r, c) <= DualRatio(T, r, j) && (j < c ==> DualRatio(T, r, c) < DualRatio(T, r, j))
  {
    var th := DualThetas(T, r);
    var c := DualPivotColumn(T, r);
    var w := |T[0]|;
    var j0 :| 0 <= j0 < |th| && th[j0] != Finite(0.0) && th[j0] != PosInf;
    var pf := PositiveFinite(th);
    assert DualRatio(T, r, j0) in pf;
    var m := MinOf(pf);
    assert m in pf;
    assert DualTarget(th) == Finite(m);
    assert th[c] == Finite(m);
    assert T[r][c] < 0.0;
    assert DualRatio(T, r, c) == m;
    RatioZero(T[0][c], T[r][c]);
    forall j | 0 <= j < w - 1 && T[r][j] < 0.0 && T[0][j] != 0.0
      ensures m <= DualRatio(T, r, j) && (j < c ==> m != DualRatio(T, r, j))
    {
      assert th[j] == Finite(DualRatio(T, r, j));
      RatioZero(T[0][j], T[r][j]);
      assert DualRatio(T, r, j) in pf;
      var k :| 0 <= k < |pf| && pf[k] == DualRatio(T, r, j);
    }
  }

  lemma RatioZero(z: real, a: real)
    requires a != 0.0
    ensures Abs(z / a) == 0.0 <==> z == 0.0
  {
    if z / a == 0.0 {
      assert z == (z / a) * a;
    }
  }

  /** No dual step exactly when no last entry is negative, or when the pivot
      row has no negative entry left of the RHS. A step pivots at that row and
      column, and its new table has a unit vector in the pivot column. */
  lemma DualStepSpec(T: Table)
    requires IsGrid(T)
    ensures var r := DualPivotRow(T);
      (DualStep(T).None? <==>
        (forall i :: 0 <= i < |T| ==> LastOf(T[i]) >= 0.0)
        || (r >= 0 && forall j :: 0 <= j < |T[0]| - 1 ==> T[r][j] >= 0.0))
      && (DualStep(T).Some? ==>
            var p := DualStep(T).value;
            p.row == r && p.col == DualPivotColumn(T, r) && T[p.row][p.col] < 0.0
            && p.thetas == DualThetas(T, r) && p.table == PivotTable(T, p.row, p.col)
            && IsGrid(p.table) && |p.table| == |T| && |p.table[0]| == |T[0]|
            && forall i :: 0 <= i < |T| ==> p.table[i][p.col] == if i == p.row then 1.0 else 0.0)
  {
    DualPivotRowSpec(T);
    var r := DualPivotRow(T);
    if r >= 0 {
      DualPivotColumnSpec(T, r);
      var c := DualPivotColumn(T, r);
      if c >= 0 {
        PivotTableUnitColumn(T, r, c);
      }
    }
  }

  /** The primal entering column is -1 exactly when no z entry left of the
      RHS qualifies (positive for min, negative for max); otherwise it is the
      first column holding the least qualifying value: the first most negative
      entry for max, the first smallest positive entry for min. */
  lemma PrimalColumnSpec(T: Table, isMin: bool)
    requires IsGrid(T)
    ensures var w := |T[0]|; var c := PrimalColumn(T, isMin);
      (c == -1 <==> forall j :: 0 <= j < w - 1 ==> !Entering(T[0][j], isMin))
      && (c >= 0 ==>
            Entering(T[0][c], isMin)
            && (forall j :: 0 <= j < w - 1 && Entering(T[0][j], isMin) ==> T[0][c] <= T[0][j])
            && (forall j :: 0 <= j < c ==> T[0][j] != T[0][c]))
  {
    var w := |T[0]|;
    var test := T[0][..w - 1];
    var cand := if isMin then Filter(test, x => x > 0.0) else Filter(test, x => x < 0.0);
    assert forall x :: x in cand <==> x in test && Entering(x, isMin);
    var c := PrimalColumn(T, isMin);
    if |cand| == 0 {
      assert PrimalEntering(T, isMin) == None;
      forall j | 0 <= j < w - 1 ensures !Entering(T[0][j], isMin) {
        assert T[0][j] == test[j];
        assert test[j] in test;
      }
    } else {
      var v := MinOf(cand);
      assert PrimalEntering(T, isMin) == Some(v);
      assert c == IndexOf(T[0], v);
      assert cand[0] in cand;
      assert v in cand;
      forall j | 0 <= j < w - 1 && Entering(T[0][j], isMin) ensures v <= T[0][j] {
        assert T[0][j] == test[j];
        assert test[j] in test;
        assert T[0][j] in cand;
        var k :| 0 <= k < |cand| && cand[k] == T[0][j];
      }
    }
  }

  function PrimalRatio(T: Table, i: nat, c: nat): real
    requires IsGrid(T) && 1 <= i < |T| && c < |T[0]| && T[i][c] != 0.0
  {
    LastOf(T[i]) / T[i][c]
  }

  /** The primal leaving row is absent exactly when every row 1.. has a zero
      in the entering column or a negative ratio. */
  lemma PrimalLeavingNone(T: Table, c: nat)
    requires IsGrid(T) && c < |T[0]|
    ensures PrimalLeaving(PrimalThetas(T, c)).None? <==>
      forall i :: 1 <= i < |T| ==> T[i][c] == 0.0 || PrimalRatio(T, i, c) < 0.0
  {
    var th := PrimalThetas(T, c);
    var pf := PositiveFinite(th);
    if exists i :: 1 <= i < |T| && T[i][c] != 0.0 && PrimalRatio(T, i, c) >= 0.0 {
      var i :| 1 <= i < |T| && T[i][c] != 0.0 && PrimalRatio(T, i, c) >= 0.0;
      assert th[i - 1] == Finite(PrimalRatio(T, i, c));
      assert !AllNegative(th);
      if PrimalRatio(T, i, c) > 0.0 {
        assert PrimalRatio(T, i, c) in pf;
      } else {
        assert Finite(0.0) in th;
      }
    } else {
      forall k | 0 <= k < |th| ensures th[k] == PosInf || (th[k].Finite? && th[k].r < 0.0) {
        assert th[k] == if T[k + 1][c] != 0.0 then Finite(PrimalRatio(T, k + 1, c)) else PosInf;
      }
      assert Finite(0.0) !in th;
      NoPositiveFinite(th);
    }
  }

  lemma {:induction false} NoPositiveFinite(th: seq<ExtReal>)
    requires forall k :: 0 <= k < |th| ==> th[k] == PosInf || (th[k].Finite? && th[k].r <= 0.0)
    ensures |PositiveFinite(th)| == 0
  {
    if |th| > 0 {
      NoPositiveFinite(th[1..]);
    }
  }

  /** Otherwise the leaving row is the first row with the smallest positive
      ratio or, when no ratio is positive, the first row with ratio 0. */
  lemma PrimalLeavingSome(T: Table, c: nat)
    requires IsGrid(T) && c < |T[0]|
    requires PrimalLeaving(PrimalThetas(T, c)).Some?
    ensures var r := PrimalLeaving(PrimalThetas(T, c)).value;
      1 <= r < |T| && T[r][c] != 0.0 && PrimalRatio(T, r, c) >= 0.0
      && (forall i :: 1 <= i < |T| && T[i][c] != 0.0 && PrimalRatio(T, i, c) > 0.0 ==>
            PrimalRatio(T, r, c) <= PrimalRatio(T, i, c))
      && (PrimalRatio(T, r, c) == 0.0 ==>
            forall i :: 1 <= i < |T| && T[i][c] != 0.0 ==> PrimalRatio(T, i, c) <= 0.0)
      && (forall i :: 1 <= i < r && T[i][c] != 0.0 ==> PrimalRatio(T, i, c) != PrimalRatio(T, r, c))
  {
    var th := PrimalThetas(T, c);
    var pf := PositiveFinite(th);
    var r := PrimalLeaving(th).value;
    forall i | 1 <= i < |T| ensures th[i - 1] == if T[i][c] != 0.0 then Finite(PrimalRatio(T, i, c)) else PosInf {
    }
    forall i | 1 <= i < |T| && T[i][c] != 0.0 && PrimalRatio(T, i, c) > 0.0
      ensures PrimalRatio(T, i, c) in pf
    {
      assert th[i - 1] == Finite(PrimalRatio(T, i, c));
    }
    if |pf| > 0 {
      var m := MinOf(pf);
      assert pf[0] in pf;
      assert m in pf;
      assert th[r - 1] == Finite(m);
      forall i | 1 <= i < |T| && T[i][c] != 0.0 && PrimalRatio(T, i, c) > 0.0
        ensures m <= PrimalRatio(T, i, c)
      {
        var k :| 0 <= k < |pf| && pf[k] == PrimalRatio(T, i, c);
      }
    } else {
      assert th[r - 1] == Finite(0.0);
    }
  }

  /** No primal step exactly when no entering column qualifies or the ratios
      give no leaving row; a step pivots there and leaves a unit column. */
  lemma PrimalStepSpec(T: Table, isMin: bool)
    requires IsGrid(T)
    ensures var c := PrimalColumn(T, isMin);
      (PrimalStep(T, isMin).None? <==> c == -1 || PrimalLeaving(PrimalThetas(T, c)).None?)
      && (PrimalStep(T, isMin).Some? ==>
            var p := PrimalStep(T, isMin).value;
            p.col == c && Some(p.row) == PrimalLeaving(PrimalThetas(T, c)) && p.thetas == PrimalThetas(T, c)
            && p.row < |T| && T[p.row][p.col] != 0.0 && p.table == PivotTable(T, p.row, p.col)
            && IsGrid(p.table) && |p.table| == |T| && |p.table[0]| == |T[0]|
            && forall i :: 0 <= i < |T| ==> p.table[i][p.col] == if i == p.row then 1.0 else 0.0)
  {
    if PrimalStep(T, isMin).Some? {
      var p := PrimalStep(T, isMin).value;
      PivotTableUnitColumn(T, p.row, p.col);
    }
  }

  /** A decision column with a single nonzero entry of magnitude 1, in row i,
      reads the RHS of row i; a column with any other number of nonzero entries
      reads 0; a single nonzero entry of any other magnitude is a failure. */
  lemma ChangingValueSpec(T: Table, k: nat, i: nat)
    requires IsGrid(T) && k < |T[0]| && i < |T|
    ensures (Abs(T[i][k]) == 1.0 && forall q :: 0 <= q < |T| && q != i ==> T[q][k] == 0.0)
      ==> ChangingValue(T, k) == Some(LastOf(T[i]))
    ensures (T[i][k] != 0.0 && Abs(T[i][k]) != 1.0 && forall q :: 0 <= q < |T| && q != i ==> T[q][k] == 0.0)
      ==> ChangingValue(T, k).None?
    ensures NonzeroCount(Column(T, k)) != 1 ==> ChangingValue(T, k) == Some(0.0)
  {
    var col := Column(T, k);
    if forall q :: 0 <= q < |T| && q != i ==> T[q][k] == 0.0 {
      if T[i][k] != 0.0 {
        NonzeroCountSingle(col, i);
        var a := AbsAll(col);
        forall q | 0 <= q < |a| && q != i ensures a[q] != 1.0 {
          assert col[q] == 0.0;
        }
        if Abs(T[i][k]) == 1.0 {
          assert IndexOf(a, 1.0) == i;
        } else {
          assert IndexOf(a, 1.0) == -1;
        }
      }
    }
  }

  lemma {:induction false} NonzeroCountSingle(col: seq<real>, i: nat)
    requires i < |col| && col[i] != 0.0
    requires forall q :: 0 <= q < |col| && q != i ==> col[q] == 0.0
    ensures NonzeroCount(col) == 1
  {
    var n := |col|;
    if i == n - 1 {
      NonzeroCountZero(col[..n - 1]);
    } else {
      NonzeroCountSingle(col[..n - 1], i);
    }
  }

  lemma {:induction false} NonzeroCountZero(col: seq<real>)
    requires forall q :: 0 <= q < |col| ==> col[q] == 0.0
    ensures NonzeroCount(col) == 0
  {
    if |col| > 0 {
      NonzeroCountZero(col[..|col| - 1]);
    }
  }
}

/** Algorithms/SimplexTable.cs: a table object whose arrays are filled once,
    and a solver that keeps the current table and the list of all tables
    and pivots until the objective row is optimal, no pivot exists or 1000
    iterations have passed. */
module SimplexTables {
  import opened Common
  import opened SimplexTableSpec

  class SimplexTable {
    const basicVariables: array<string>
    const allVariables: array<string>
    const tableData: array2<real>
    const rhs: array<real>
    const objectiveRow: array<real>
    var iteration: int
    var isOptimal: bool
    var optimalityStatus: string
    ghost const Repr: set<object>

    ghost predicate Valid() {
      && Repr == {this, basicVariables, allVariables, tableData, rhs, objectiveRow}
      && basicVariables != allVariables && rhs != objectiveRow
      && basicVariables.Length == tableData.Length0 == rhs.Length
      && allVariables.Length == tableData.Length1 == objectiveRow.Length
    }

    /** The arrays as values. */
    ghost function Contents(): (t: Tab)
      reads basicVariables, allVariables, tableData, rhs, objectiveRow
      ensures Valid() ==> Shaped(t) && |t.data| == rhs.Length && |t.vars| == allVariables.Length
    {
      Tab(basicVariables[..], allVariables[..], Grid(tableData), rhs[..], objectiveRow[..])
    }

    constructor (numConstraints: nat, numVariables: nat)
      ensures Valid() && fresh(Repr)
      ensures rhs.Length == numConstraints && allVariables.Length == numVariables
      ensures Contents() == Blank(numConstraints, numVariables)
      ensures iteration == 0 && !isOptimal && optimalityStatus == NotOptimal
    {
      basicVariables := new string[numConstraints](_ => "");
      allVariables := new string[numVariables](_ => "");
      tableData := new real[numConstraints, numVariables]((_, _) => 0.0);
      rhs := new real[numConstraints](_ => 0.0);
      objectiveRow := new real[numVariables](_ => 0.0);
      iteration := 0;
      isOptimal := false;
      optimalityStatus := NotOptimal;
      Repr := {this, basicVariables, allVariables, tableData, rhs, objectiveRow};
      new;
      GridExt(tableData, Blank(numConstraints, numVariables).data);
    }

    /** The initial table of a problem: names x1..xn and s1..sk, the padded
        constraint rows with their slack columns, the RHS and the objective
        row (SimplexTable.cs:36-131). */
    static method CreateFromLPProblem(problem: LPProblem) returns (table: SimplexTable)
      ensures table.Valid() && fresh(table.Repr)
      ensures table.Contents() == InitialTab(problem)
      ensures table.iteration == 0 && !table.isOptimal && table.optimalityStatus == NotOptimal
    {
      var n, k := problem.variableCount, problem.slackVariableCount;
      table := new SimplexTable(|problem.constraints|, n + k);
      FillNames(table.allVariables, n, k);
      FillRows(table.basicVariables, table.tableData, table.rhs, problem);
      FillObjective(table.objectiveRow, problem);
      assert table.Contents() == InitialTab(problem);
    }

    /** Every variable 0, then every basic variable its RHS (SimplexTable.cs:177-194). */
    method GetSolutionValues() returns (solution: map<string, real>)
      requires Valid()
      ensures solution == SolutionValues(Contents())
    {
      ghost var t := Contents();
      solution := map[];
      for i := 0 to allVariables.Length
        invariant solution == Zeroed(allVariables[..i])
      {
        assert allVariables[..i + 1] == allVariables[..i] + [allVariables[i]];
        ZeroedSnoc(allVariables[..i], allVariables[i]);
        solution := solution[allVariables[i] := 0.0];
      }
      assert allVariables[..] == t.vars;
      for i := 0 to basicVariables.Length
        invariant solution == Assigned(Zeroed(t.vars), t.basic, t.rhs, i)
      {
        solution := solution[basicVariables[i] := rhs[i]];
      }
    }
  }

  // ---------------------------------------------------------------------
  // The loops of CreateFromLPProblem

  /** x1..xn, then s1..sk (SimplexTable.cs:46-56). */
  method FillNames(names: array<string>, n: nat, k: nat)
    requires names.Length == n + k
    modifies names
    ensures names[..] == VariableNames(n, k)
  {
    ghost var want := VariableNames(n, k);
    for i := 0 to n
      invariant forall q :: 0 <= q < i ==> names[q] == want[q]
    {
      names[i] := Name("x", i + 1);
    }
    for i := 0 to k
      invariant forall q :: 0 <= q < n + i ==> names[q] == want[q]
    {
      names[n + i] := Name("s", i + 1);
    }
  }

  /** One constraint row: coefficients padded with zeros, then the slack
      columns (SimplexTable.cs:75-98). */
  method FillRow(T: array2<real>, i: nat, c: LPConstraint, n: nat, k: nat, slack: nat)
    requires i < T.Length0 && T.Length1 == n + k
    modifies T
    ensures forall j :: 0 <= j < n + k ==> T[i, j] == ConstraintRow(c, n, k, slack)[j]
    ensures forall q, j :: 0 <= q < T.Length0 && q != i && 0 <= j < T.Length1 ==> T[q, j] == old(T[q, j])
  {
    ghost var row := ConstraintRow(c, n, k, slack);
    for j := 0 to n
      invariant forall q :: 0 <= q < j ==> T[i, q] == row[q]
      invariant forall q, l :: 0 <= q < T.Length0 && q != i && 0 <= l < T.Length1 ==> T[q, l] == old(T[q, l])
    {
      if j < |c.coefficients| {
        T[i, j] := c.coefficients[j];
      } else {
        T[i, j] := 0.0;
      }
    }
    for j := 0 to k
      invariant forall q :: 0 <= q < n + j ==> T[i, q] == row[q]
      invariant forall q, l :: 0 <= q < T.Length0 && q != i && 0 <= l < T.Length1 ==> T[q, l] == old(T[q, l])
    {
      if c.requiresSlackVariable && j == slack {
        T[i, n + j] := 1.0;
      } else {
        T[i, n + j] := 0.0;
      }
    }
  }

  /** The constraint loop: basic names, rows and RHS, with slackIndex
      advancing on slack rows only (SimplexTable.cs:59-107). */
  method FillRows(basic: array<string>, T: array2<real>, b: array<real>, problem: LPProblem)
    requires basic.Length == T.Length0 == b.Length == |problem.constraints|
    requires T.Length1 == problem.variableCount + problem.slackVariableCount
    modifies basic, T, b
    ensures basic[..] == InitialTab(problem).basic && b[..] == InitialTab(problem).rhs
    ensures Grid(T) == InitialTab(problem).data
  {
    var cs, n, k := problem.constraints, problem.variableCount, problem.slackVariableCount;
    var slackIndex := 0;
    for constraintIdx := 0 to |cs|
      invariant slackIndex == SlackIndex(cs, constraintIdx)
      invariant forall q :: 0 <= q < constraintIdx ==> basic[q] == BasicName(cs, q) && b[q] == cs[q].rhs
      invariant forall q, j :: 0 <= q < constraintIdx && 0 <= j < n + k ==> T[q, j] == ConstraintRow(cs[q], n, k, SlackIndex(cs, q))[j]
    {
      FillConstraint(basic, T, b, cs, constraintIdx, n, k, slackIndex);
      if cs[constraintIdx].requiresSlackVariable {
        slackIndex := slackIndex + 1;
      }
    }
    FilledRowsAreInitial(problem, basic[..], b[..]);
    InitialTabRows(problem);
    GridExt(T, InitialTab(problem).data);
  }

  /** The body of the constraint loop for row i. */
  method FillConstraint(basic: array<string>, T: array2<real>, b: array<real>, cs: seq<LPConstraint>, i: nat, n: nat, k: nat, slack: nat)
    requires basic.Length == T.Length0 == b.Length == |cs| && T.Length1 == n + k && i < |cs| && slack == SlackIndex(cs, i)
    modifies basic, T, b
    ensures basic[..] == old(basic[..])[i := BasicName(cs, i)] && b[..] == old(b[..])[i := cs[i].rhs]
    ensures forall j :: 0 <= j < n + k ==> T[i, j] == ConstraintRow(cs[i], n, k, slack)[j]
    ensures forall q, j :: 0 <= q < T.Length0 && q != i && 0 <= j < T.Length1 ==> T[q, j] == old(T[q, j])
  {
    var constraint := cs[i];
    if constraint.requiresSlackVariable {
      basic[i] := Name("s", slack + 1);
    } else {
      basic[i] := Name("a", i + 1);
    }
    FillRow(T, i, constraint, n, k, slack);
    b[i] := constraint.rhs;
  }

  /** -c for "max", +c otherwise, then zeros (SimplexTable.cs:110-128). */
  method FillObjective(obj: array<real>, problem: LPProblem)
    requires obj.Length == problem.variableCount + problem.slackVariableCount
    modifies obj
    ensures obj[..] == ObjectiveOf(problem)
  {
    var n, c := problem.variableCount, problem.objectiveCoefficients;
    ghost var want := ObjectiveOf(problem);
    for j := 0 to n
      invariant forall q :: 0 <= q < j ==> obj[q] == want[q]
    {
      if j < |c| {
        assert want[j] == if IsMax(problem) then -c[j] else c[j];
        obj[j] := if ToLower(problem.objectiveType) == "max" then -c[j] else c[j];
      } else {
        obj[j] := 0.0;
      }
    }
    for j := n to obj.Length
      invariant forall q :: 0 <= q < j ==> obj[q] == want[q]
    {
      obj[j] := 0.0;
    }
  }

  // ---------------------------------------------------------------------
  // The loops of PerformPivotOperation

  /** Array.Copy of a whole array. */
  method CopyNames(src: array<string>, dst: array<string>)
    requires src.Length == dst.Length && src != dst
    modifies dst
    ensures dst[..] == src[..]
  {
    for i := 0 to src.Length
      invariant dst[..i] == src[..i]
    {
      dst[i] := src[i];
    }
  }

  /** The pivot row divided by the pivot and every other row minus its
      column-c entry times the new pivot row (SimplexTable.cs:350-370). */
  method PivotRows(T: array2<real>, b: array<real>, D: array2<real>, e: array<real>, r: nat, c: nat)
    requires T != D && b != e && D.Length0 == T.Length0 == b.Length == e.Length && D.Length1 == T.Length1
    requires r < T.Length0 && c < T.Length1 && T[r, c] != 0.0
    modifies D, e
    ensures Grid(D) == PivotedData(Grid(T), r, c) && e[..] == PivotedRhs(Grid(T), b[..], r, c)
  {
    var p := T[r, c];
    DividePivotRow(T, b, D, e, r, c);
    for i := 0 to T.Length0
      invariant forall l :: 0 <= l < T.Length1 ==> D[r, l] == T[r, l] / p
      invariant e[r] == b[r] / p
      invariant forall q, l :: 0 <= q < i && q != r && 0 <= l < T.Length1 ==> D[q, l] == T[q, l] - T[q, c] * (T[r, l] / p)
      invariant forall q :: 0 <= q < i && q != r ==> e[q] == b[q] - T[q, c] * (b[r] / p)
    {
      if i != r {
        EliminateInto(T, b, D, e, r, c, i);
      }
    }
    PivotRowsDone(T, b, D, e, r, c);
  }

  /** The pointwise facts PivotRows' loop leaves behind are the seq-level
      pivot of the table's rows and RHS. */
  lemma PivotRowsDone(T: array2<real>, b: array<real>, D: array2<real>, e: array<real>, r: nat, c: nat)
    requires D.Length0 == T.Length0 == b.Length == e.Length && D.Length1 == T.Length1
    requires r < T.Length0 && c < T.Length1 && T[r, c] != 0.0
    requires forall l :: 0 <= l < T.Length1 ==> D[r, l] == T[r, l] / T[r, c]
    requires e[r] == b[r] / T[r, c]
    requires forall q, l :: 0 <= q < T.Length0 && q != r && 0 <= l < T.Length1 ==> D[q, l] == T[q, l] - T[q, c] * (T[r, l] / T[r, c])
    requires forall q :: 0 <= q < T.Length0 && q != r ==> e[q] == b[q] - T[q, c] * (b[r] / T[r, c])
    ensures Grid(D) == PivotedData(Grid(T), r, c) && e[..] == PivotedRhs(Grid(T), b[..], r, c)
  {
    var G := Grid(T);
    var P := PivotedData(G, r, c);
    forall i, j | 0 <= i < T.Length0 && 0 <= j < T.Length1 ensures D[i, j] == P[i][j] {
      if i != r {
        assert P[i][j] == G[i][j] - G[i][c] * DividedBy(G[r], G[r][c])[j];
      }
    }
    GridExt(D, P);
    var E := PivotedRhs(G, b[..], r, c);
    forall i | 0 <= i < e.Length ensures e[i] == E[i] {
      assert G[i][c] == T[i, c];
    }
    assert e[..] == E;
  }

  /** The pivot row of the new table: the old one divided by the pivot. */
  method DividePivotRow(T: array2<real>, b: array<real>, D: array2<real>, e: array<real>, r: nat, c: nat)
    requires T != D && b != e && D.Length0 == T.Length0 == b.Length == e.Length && D.Length1 == T.Length1
    requires r < T.Length0 && c < T.Length1 && T[r, c] != 0.0
    modifies D, e
    ensures forall l :: 0 <= l < T.Length1 ==> D[r, l] == T[r, l] / T[r, c]
    ensures e[r] == b[r] / T[r, c]
  {
    var p := T[r, c];
    for j := 0 to T.Length1
      invariant forall l :: 0 <= l < j ==> D[r, l] == T[r, l] / p
    {
      D[r, j] := T[r, j] / p;
    }
    e[r] := b[r] / p;
  }

  /** Row i of the new table: the old row minus its column-c entry times
      the new pivot row; nothing else changes. */
  method EliminateInto(T: array2<real>, b: array<real>, D: array2<real>, e: array<real>, r: nat, c: nat, i: nat)
    requires T != D && b != e && D.Length0 == T.Length0 == b.Length == e.Length && D.Length1 == T.Length1
    requires r < T.Length0 && c < T.Length1 && i < T.Length0 && i != r
    modifies D, e
    ensures forall l :: 0 <= l < T.Length1 ==> D[i, l] == T[i, l] - T[i, c] * old(D[r, l])
    ensures e[i] == b[i] - T[i, c] * old(e[r])
    ensures forall q, l :: 0 <= q < T.Length0 && q != i && 0 <= l < T.Length1 ==> D[q, l] == old(D[q, l])
    ensures forall q :: 0 <= q < e.Length && q != i ==> e[q] == old(e[q])
  {
    var multiplier := T[i, c];
    for j := 0 to T.Length1
      invariant forall l :: 0 <= l < j ==> D[i, l] == T[i, l] - multiplier * old(D[r, l])
      invariant forall q, l :: 0 <= q < T.Length0 && q != i && 0 <= l < T.Length1 ==> D[q, l] == old(D[q, l])
      invariant e[..] == old(e[..])
    {
      D[i, j] := T[i, j] - multiplier * D[r, j];
    }
    e[i] := b[i] - multiplier * e[r];
  }

  /** The objective row minus its column-c entry times the new pivot row
      (SimplexTable.cs:373-378). */
  method PivotObjective(z: array<real>, D: array2<real>, y: array<real>, r: nat, c: nat)
    requires z != y && z.Length == y.Length == D.Length1 && r < D.Length0 && c < z.Length
    modifies y
    ensures y[..] == RowLess(z[..], z[c], Grid(D)[r])
  {
    var objMultiplier := z[c];
    ghost var prow := Grid(D)[r];
    for j := 0 to z.Length
      invariant forall l :: 0 <= l < j ==> y[l] == z[l] - objMultiplier * prow[l]
    {
      y[j] := z[j] - objMultiplier * D[r, j];
    }
    ghost var want := RowLess(z[..], z[c], prow);
    forall l | 0 <= l < y.Length ensures y[l] == want[l] {
      assert want[l] == z[l] - z[c] * prow[l];
    }
    assert y[..] == want;
  }

  class SimplexSolver {
    var iterations: seq<SimplexTable>
    var currentTable: SimplexTable?
    var problem: Option<LPProblem>
    /** The contents of the tables since the last Initialize, in order. */
    ghost var history: seq<Tab>

    ghost function Footprint(): set<object>
      reads this
    {
      if currentTable == null then {} else currentTable.Repr
    }

    /** Initialised: the current table is the last of the list and the last
        of the history. */
    ghost predicate Valid()
      reads this, Footprint()
    {
      && currentTable != null && problem.Some? && currentTable.Valid()
      && |iterations| > 0 && iterations[|iterations| - 1] == currentTable
      && |history| > 0 && history[|history| - 1] == currentTable.Contents()
    }

    ghost function IsMaxProblem(): bool
      reads this
      requires problem.Some?
    {
      IsMax(problem.value)
    }

    constructor ()
      ensures iterations == [] && currentTable == null && problem == None && history == []
    {
      iterations := [];
      currentTable := null;
      problem := None;
      history := [];
    }

    /** Builds the initial table as iteration 0 and appends it to the list
        (SimplexTable.cs:220-226). */
    method Initialize(p: LPProblem)
      modifies this
      ensures Valid() && problem == Some(p) && fresh(currentTable.Repr)
      ensures iterations == old(iterations) + [currentTable] && history == [InitialTab(p)]
      ensures currentTable.iteration == 0 && !currentTable.isOptimal && currentTable.optimalityStatus == NotOptimal
    {
      problem := Some(p);
      var table := SimplexTable.CreateFromLPProblem(p);
      currentTable := table;
      currentTable.iteration := 0;
      iterations := iterations + [currentTable];
      history := [currentTable.Contents()];
    }

    /** Every objective entry >= -1e-10 for max, <= 1e-10 for min (SimplexTable.cs:228-240). */
    method IsOptimal() returns (optimal: bool)
      requires Valid()
      ensures optimal == Optimal(currentTable.Contents().obj, IsMaxProblem())
    {
      var row := currentTable.objectiveRow;
      var isMax := ToLower(problem.value.objectiveType) == "max";
      for j := 0 to row.Length
        invariant Optimal(row[..j], isMax)
      {
        if isMax && row[j] < -Tol {
          assert row[..row.Length][j] == row[j];
          return false;
        }
        if !isMax && row[j] > Tol {
          assert row[..row.Length][j] == row[j];
          return false;
        }
      }
      assert row[..row.Length] == row[..];
      return true;
    }

    /** The entering column and leaving row, or (-1, -1) when the table is
        optimal or the ratio test finds no row (SimplexTable.cs:242-300). */
    method FindPivotElement() returns (pivotRow: int, pivotCol: int)
      requires Valid()
      ensures pivotRow == -1 <==> pivotCol == -1
      ensures pivotCol == -1 ==> Optimal(currentTable.Contents().obj, IsMaxProblem()) || Blocked(currentTable.Contents(), IsMaxProblem())
      ensures pivotCol != -1 ==> PivotChoice(currentTable.Contents(), IsMaxProblem(), pivotRow, pivotCol)
    {
      ghost var t := currentTable.Contents();
      var isMax := ToLower(problem.value.objectiveType) == "max";
      pivotCol := EnteringIndex(currentTable.objectiveRow, isMax);
      if pivotCol == -1 {
        return -1, -1;
      }
      pivotRow := LeavingIndex(currentTable, pivotCol);
      if pivotRow == -1 {
        return -1, -1;
      }
    }

    /** Stops at an optimal table or one without a pivot and says so in its
        status, or appends the pivoted table as the next iteration
        (SimplexTable.cs:302-327). */
    method PerformIteration() returns (progressed: bool)
      requires Valid()
      modifies this, currentTable
      ensures Valid() && problem == old(problem)
      ensures !progressed ==> currentTable == old(currentTable) && iterations == old(iterations) && history == old(history)
      ensures !progressed && Optimal(old(currentTable.Contents()).obj, IsMaxProblem()) ==>
        currentTable.isOptimal && currentTable.optimalityStatus == OptimalFound && currentTable.iteration == old(currentTable.iteration)
      ensures !progressed && !Optimal(old(currentTable.Contents()).obj, IsMaxProblem()) ==>
        Blocked(currentTable.Contents(), IsMaxProblem()) && currentTable.optimalityStatus == NoSolution
        && currentTable.isOptimal == old(currentTable.isOptimal) && currentTable.iteration == old(currentTable.iteration)
      ensures progressed ==> fresh(currentTable.Repr) && unchanged(old(currentTable))
      ensures progressed ==> iterations == old(iterations) + [currentTable] && history == old(history) + [currentTable.Contents()]
      ensures progressed ==> Step(old(currentTable.Contents()), IsMaxProblem(), currentTable.Contents())
      ensures progressed ==> currentTable.iteration == old(currentTable.iteration) + 1
      ensures progressed ==> !currentTable.isOptimal && currentTable.optimalityStatus == NotOptimal
    {
      var optimal := IsOptimal();
      if optimal {
        currentTable.isOptimal := true;
        currentTable.optimalityStatus := OptimalFound;
        return false;
      }
      var pivotRow, pivotCol := FindPivotElement();
      if pivotRow == -1 || pivotCol == -1 {
        currentTable.optimalityStatus := NoSolution;
        return false;
      }
      PivotOn(pivotRow, pivotCol);
      return true;
    }

    /** The pivot branch of PerformIteration: the pivoted table, numbered
        one past the current one, becomes current and joins the list. */
    method PivotOn(pivotRow: nat, pivotCol: nat)
      requires Valid() && PivotChoice(currentTable.Contents(), IsMaxProblem(), pivotRow, pivotCol)
      modifies this`currentTable, this`iterations, this`history
      ensures Valid() && problem == old(problem)
      ensures fresh(currentTable.Repr) && unchanged(old(currentTable))
      ensures iterations == old(iterations) + [currentTable] && history == old(history) + [currentTable.Contents()]
      ensures Step(old(currentTable.Contents()), IsMaxProblem(), currentTable.Contents())
      ensures currentTable.iteration == old(currentTable.iteration) + 1
      ensures !currentTable.isOptimal && currentTable.optimalityStatus == NotOptimal
    {
      ghost var t := currentTable.Contents();
      PivotChoiceIsSafe(t, IsMaxProblem(), pivotRow, pivotCol);
      var thrown, newTable := PerformPivotOperation(pivotRow, pivotCol);
      assert !thrown;
      newTable.iteration := currentTable.iteration + 1;
      currentTable := newTable;
      iterations := iterations + [currentTable];
      history := history + [currentTable.Contents()];
      assert currentTable.Contents() == PivotTab(t, pivotRow, pivotCol);
    }

    /** A fresh table pivoted on (pivotRow, pivotCol); thrown when the pivot
        is below 1e-10 in magnitude, where the source throws
        InvalidOperationException (SimplexTable.cs:329-381). */
    method PerformPivotOperation(pivotRow: nat, pivotCol: nat) returns (thrown: bool, newTable: SimplexTable)
      requires Valid() && pivotRow < currentTable.rhs.Length && pivotCol < currentTable.allVariables.Length
      ensures newTable.Valid() && fresh(newTable.Repr)
      ensures thrown <==> Abs(currentTable.tableData[pivotRow, pivotCol]) < Tol
      ensures !thrown ==> newTable.Contents() == PivotTab(currentTable.Contents(), pivotRow, pivotCol)
      ensures newTable.iteration == 0 && !newTable.isOptimal && newTable.optimalityStatus == NotOptimal
    {
      var cur := currentTable;
      var numConstraints, numVars := cur.basicVariables.Length, cur.allVariables.Length;
      newTable := new SimplexTable(numConstraints, numVars);
      CopyNames(cur.basicVariables, newTable.basicVariables);
      CopyNames(cur.allVariables, newTable.allVariables);
      newTable.basicVariables[pivotRow] := cur.allVariables[pivotCol];
      var pivotElement := cur.tableData[pivotRow, pivotCol];
      if Abs(pivotElement) < Tol {
        return true, newTable;
      }
      ghost var t := cur.Contents();
      PivotRows(cur.tableData, cur.rhs, newTable.tableData, newTable.rhs, pivotRow, pivotCol);
      PivotObjective(cur.objectiveRow, newTable.tableData, newTable.objectiveRow, pivotRow, pivotCol);
      thrown := false;
      assert newTable.Contents() == PivotTab(t, pivotRow, pivotCol);
    }

    /** Calls PerformIteration until it returns false or 1000 iterations
        have been counted, then marks a run that reached the cap as possibly
        cycling (SimplexTable.cs:383-397). */
    method SolveToOptimal()
      requires Valid()
      modifies this, currentTable
      ensures Valid() && problem == old(problem)
      ensures |old(history)| <= |history| <= |old(history)| + MaxIterations + 1
      ensures history[..|old(history)|] == old(history) && Chain(history[|old(history)| - 1..], IsMaxProblem())
      ensures |iterations| - |old(iterations)| == |history| - |old(history)|
      ensures currentTable.iteration == old(currentTable.iteration) + (|history| - |old(history)|)
      ensures |history| - |old(history)| >= MaxIterations ==> currentTable.optimalityStatus == Cycling
      ensures |history| - |old(history)| < MaxIterations ==>
        (currentTable.isOptimal && currentTable.optimalityStatus == OptimalFound && Optimal(currentTable.Contents().obj, IsMaxProblem()))
        || (currentTable.optimalityStatus == NoSolution && Blocked(currentTable.Contents(), IsMaxProblem()))
    {
      var count := RunIterations();
      if count >= MaxIterations {
        currentTable.optimalityStatus := Cycling;
      }
    }

    /** The history since h0 (whose last entry is where the run started)
        is a run of pivots, matched one for one by the table list and the
        iteration number. */
    ghost predicate Tracks(h0: seq<Tab>, it0: nat, n0: int)
      reads this, Footprint()
      requires Valid()
    {
      && 0 < |h0| <= |history| && history[..|h0|] == h0 && Chain(history[|h0| - 1..], IsMaxProblem())
      && |iterations| - it0 == |history| - |h0| && currentTable.iteration == n0 + (|history| - |h0|)
    }

    /** The current table is marked optimal and is, or no pivot can be
        chosen on it and it is marked unbounded. */
    ghost predicate Stopped()
      reads this, Footprint()
      requires Valid()
    {
      || (currentTable.isOptimal && currentTable.optimalityStatus == OptimalFound && Optimal(currentTable.Contents().obj, IsMaxProblem()))
      || (currentTable.optimalityStatus == NoSolution && Blocked(currentTable.Contents(), IsMaxProblem()))
    }

    /** The loop of SolveToOptimal: count is the number of calls of
        PerformIteration that returned true while below the cap. */
    method RunIterations() returns (count: nat)
      requires Valid()
      modifies this, currentTable
      ensures Valid() && problem == old(problem)
      ensures currentTable == old(currentTable) || fresh(currentTable.Repr)
      ensures Tracks(old(history), |old(iterations)|, old(currentTable.iteration))
      ensures count <= MaxIterations && |old(history)| + count <= |history| <= |old(history)| + count + 1
      ensures |history| == |old(history)| + count + 1 ==> count == MaxIterations
      ensures |history| == |old(history)| + count ==> Stopped()
    {
      ghost var h0, it0, n0 := history, |iterations|, currentTable.iteration;
      assert history[|h0| - 1..] == [history[|history| - 1]];
      count := 0;
      var progressed := Advance(h0, it0, n0);
      while progressed && count < MaxIterations
        invariant Valid() && problem == old(problem) && Tracks(h0, it0, n0)
        invariant currentTable == old(currentTable) || fresh(currentTable.Repr)
        invariant count <= MaxIterations && |history| == |h0| + count + (if progressed then 1 else 0)
        invariant !progressed ==> Stopped()
        decreases MaxIterations - count
      {
        count := count + 1;
        progressed := Advance(h0, it0, n0);
      }
    }

    /** One call of PerformIteration inside SolveToOptimal's loop. */
    method Advance(ghost h0: seq<Tab>, ghost it0: nat, ghost n0: int) returns (progressed: bool)
      requires Valid() && Tracks(h0, it0, n0)
      modifies this, currentTable
      ensures Valid() && problem == old(problem) && Tracks(h0, it0, n0)
      ensures currentTable == old(currentTable) || fresh(currentTable.Repr)
      ensures progressed ==> |history| == old(|history|) + 1
      ensures !progressed ==> |history| == old(|history|) && Stopped()
    {
      ghost var h1 := history;
      progressed := PerformIteration();
      if progressed {
        ChainTailSnoc(h1, |h0|, IsMaxProblem(), history[|history| - 1]);
      }
    }
  }

  /** The entering-variable scan (SimplexTable.cs:244-272). */
  method EnteringIndex(row: array<real>, isMax: bool) returns (pivotCol: int)
    ensures pivotCol == -1 ==> Optimal(row[..], isMax)
    ensures pivotCol != -1 ==> EnteringColumn(row[..], isMax, pivotCol)
  {
    pivotCol := -1;
    if isMax {
      var mostNegative := -Tol;
      for j := 0 to row.Length
        invariant pivotCol == -1 ==> mostNegative == -Tol && forall k :: 0 <= k < j ==> row[k] >= -Tol
        invariant pivotCol != -1 ==> (0 <= pivotCol < j && mostNegative == row[pivotCol] && mostNegative < -Tol
          && (forall k :: 0 <= k < j ==> mostNegative <= row[k]) && (forall k :: 0 <= k < pivotCol ==> mostNegative < row[k]))
      {
        if row[j] < mostNegative {
          mostNegative := row[j];
          pivotCol := j;
        }
      }
    } else {
      var mostPositive := Tol;
      for j := 0 to row.Length
        invariant pivotCol == -1 ==> mostPositive == Tol && forall k :: 0 <= k < j ==> row[k] <= Tol
        invariant pivotCol != -1 ==> (0 <= pivotCol < j && mostPositive == row[pivotCol] && mostPositive > Tol
          && (forall k :: 0 <= k < j ==> row[k] <= mostPositive) && (forall k :: 0 <= k < pivotCol ==> row[k] < mostPositive))
      {
        if row[j] > mostPositive {
          mostPositive := row[j];
          pivotCol := j;
        }
      }
    }
  }

  /** The minimum ratio test on column pivotCol (SimplexTable.cs:277-291). */
  method LeavingIndex(table: SimplexTable, pivotCol: nat) returns (pivotRow: int)
    requires table.Valid() && pivotCol < table.allVariables.Length
    ensures pivotRow == -1 ==> NoLeavingRow(table.Contents(), pivotCol)
    ensures pivotRow != -1 ==> LeavingRow(table.Contents(), pivotCol, pivotRow)
  {
    ghost var t := table.Contents();
    pivotRow := -1;
    var minRatio := MaxDouble;
    for i := 0 to table.rhs.Length
      invariant pivotRow == -1 ==> minRatio == MaxDouble && forall q :: 0 <= q < i ==> !Eligible(t, pivotCol, q)
      invariant pivotRow != -1 ==> (0 <= pivotRow < i && Eligible(t, pivotCol, pivotRow) && minRatio == Ratio(t, pivotRow, pivotCol)
        && (forall q :: 0 <= q < i && Eligible(t, pivotCol, q) ==> minRatio <= Ratio(t, q, pivotCol))
        && (forall q :: 0 <= q < pivotRow && Eligible(t, pivotCol, q) ==> minRatio < Ratio(t, q, pivotCol)))
    {
      var a := table.tableData[i, pivotCol];
      if a > Tol {
        var ratio := table.rhs[i] / a;
        assert ratio == Ratio(t, i, pivotCol);
        if ratio >= 0.0 && ratio < minRatio {
          minRatio := ratio;
          pivotRow := i;
        }
      }
    }
  }
}

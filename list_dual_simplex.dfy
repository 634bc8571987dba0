/** The DualSimplex class of Algorithms/DualSimplex.cs. It formulates the
    first table from the caller's rows (changing those rows), pivots by
    building fresh tables, records every pivot position in its fields and
    drives the two phases over a growing list of tableaus. */
module ListDualSimplex {
  import opened Common
  import opened ListDualSimplexSpec
  import opened ListDualSimplexRun

  // ---------------------------------------------------------------------
  // The stages of DoFormulationOperation, each one of its loops

  /** Negates, in place, every row whose type flag is 1. */
  method NegateExcessRows(constraints: array<seq<real>>)
    requires forall i :: 0 <= i < constraints.Length ==> |constraints[i]| >= 1
    modifies constraints
    ensures forall i :: 0 <= i < constraints.Length ==>
      constraints[i] == if IsExcessRow(old(constraints[i])) then NegatedRow(old(constraints[i])) else old(constraints[i])
  {
    var i := 0;
    while i < constraints.Length
      invariant 0 <= i <= constraints.Length
      invariant forall k :: 0 <= k < i ==>
        constraints[k] == if IsExcessRow(old(constraints[k])) then NegatedRow(old(constraints[k])) else old(constraints[k])
      invariant forall k :: i <= k < constraints.Length ==> constraints[k] == old(constraints[k])
    {
      if constraints[i][|constraints[i]| - 1] == 1.0 {
        ghost var row := constraints[i];
        ghost var before := constraints[..];
        var j := 0;
        while j < |constraints[i]|
          invariant 0 <= j <= |constraints[i]| == |row|
          invariant forall q :: 0 <= q < j ==> constraints[i][q] == -1.0 * row[q]
          invariant forall q :: j <= q < |row| ==> constraints[i][q] == row[q]
          invariant forall k :: 0 <= k < constraints.Length && k != i ==> constraints[k] == before[k]
        {
          constraints[i] := constraints[i][j := -1.0 * constraints[i][j]];
          j := j + 1;
        }
        assert constraints[i] == NegatedRow(row);
      }
      i := i + 1;
    }
  }

  /** Removes, in place, the last entry (the type flag) of every row. */
  method DropFlags(constraints: array<seq<real>>)
    requires forall i :: 0 <= i < constraints.Length ==> |constraints[i]| >= 1
    modifies constraints
    ensures forall i :: 0 <= i < constraints.Length ==> constraints[i] == old(constraints[i])[..|old(constraints[i])| - 1]
  {
    var i := 0;
    while i < constraints.Length
      invariant 0 <= i <= constraints.Length
      invariant forall k :: 0 <= k < i ==> constraints[k] == old(constraints[k])[..|old(constraints[k])| - 1]
      invariant forall k :: i <= k < constraints.Length ==> constraints[k] == old(constraints[k])
    {
      constraints[i] := constraints[i][..|constraints[i]| - 1];
      i := i + 1;
    }
  }

  /** The second and third loops of the formulation: the rows in their formulated form. */
  method FormulateRows(n: nat, constraints: array<seq<real>>)
    requires forall i :: 0 <= i < constraints.Length ==> 2 <= |constraints[i]| <= n + constraints.Length + 3
    modifies constraints
    ensures constraints[..] == FormulatedRows(old(constraints[..])) && RowsFit(n, constraints[..])
  {
    ghost var original := constraints[..];
    NegateExcessRows(constraints);
    DropFlags(constraints);
    forall k | 0 <= k < constraints.Length ensures constraints[k] == FormulatedRow(original[k]) {
      assert old(constraints[k]) == original[k];
    }
  }

  /** Row 0 of the table while its first k objective entries are written. */
  function ObjectivePrefix(c: seq<real>, w: nat, k: nat): (row: seq<real>)
    requires k <= |c| <= w
    ensures |row| == w
  {
    seq(w, j requires 0 <= j < w => if j < k then -c[j] else 0.0)
  }

  /** A constraint row of the table while its first k coefficients are written. */
  function CoefficientPrefix(row: seq<real>, w: nat, k: nat): (r: seq<real>)
    requires k < |row| && k <= w
    ensures |r| == w
  {
    seq(w, j requires 0 <= j < w => if j < k then row[j] else 0.0)
  }

  /** A constraint row of the table once its coefficients and RHS are written. */
  function CoefficientRow(row: seq<real>, w: nat): (r: seq<real>)
    requires 1 <= |row| <= w + 1 && w >= 1
    ensures |r| == w
  {
    CoefficientPrefix(row, w, |row| - 1)[w - 1 := LastOf(row)]
  }

  /** The loops that fill the first table from the objective and the formulated rows. */
  method BuildFormulationTable(c: seq<real>, rows: seq<seq<real>>) returns (opTable: Table)
    requires RowsFit(|c|, rows)
    ensures opTable == FormulationTable(c, rows)
  {
    var h := |rows| + 1;
    var w := |c| + |rows| + 1;
    opTable := [];
    var i := 0;
    while i < h
      invariant 0 <= i <= h && |opTable| == i
      invariant forall k :: 0 <= k < i ==> opTable[k] == ObjectivePrefix(c, w, 0)
    {
      opTable := opTable + [ObjectivePrefix(c, w, 0)];
      i := i + 1;
    }
    i := 0;
    while i < |c|
      invariant 0 <= i <= |c| && |opTable| == h
      invariant opTable[0] == ObjectivePrefix(c, w, i)
      invariant forall k :: 1 <= k < h ==> opTable[k] == ObjectivePrefix(c, w, 0)
    {
      opTable := opTable[0 := opTable[0][i := -c[i]]];
      i := i + 1;
    }
    i := 0;
    while i < |rows|
      invariant 0 <= i <= |rows| && |opTable| == h
      invariant opTable[0] == ObjectivePrefix(c, w, |c|)
      invariant forall k :: 1 <= k <= i ==> opTable[k] == CoefficientRow(rows[k - 1], w)
      invariant forall k :: i < k < h ==> opTable[k] == ObjectivePrefix(c, w, 0)
    {
      var j := 0;
      ghost var before := opTable;
      assert opTable[i + 1] == CoefficientPrefix(rows[i], w, 0);
      while j < |rows[i]| - 1
        invariant 0 <= j <= |rows[i]| - 1 && |opTable| == h
        invariant opTable[i + 1] == CoefficientPrefix(rows[i], w, j)
        invariant forall k :: 0 <= k < h && k != i + 1 ==> opTable[k] == before[k]
      {
        opTable := opTable[i + 1 := opTable[i + 1][j := rows[i][j]]];
        j := j + 1;
      }
      opTable := opTable[i + 1 := opTable[i + 1][w - 1 := LastOf(rows[i])]];
      i := i + 1;
    }
    i := 1;
    while i < |opTable|
      invariant 1 <= i <= h && |opTable| == h
      invariant opTable[0] == ObjectivePrefix(c, w, |c|)
      invariant forall k :: 1 <= k < i ==> opTable[k] == CoefficientRow(rows[k - 1], w)[k + |c| - 1 := 1.0]
      invariant forall k :: i <= k < h ==> opTable[k] == CoefficientRow(rows[k - 1], w)
    {
      var j := |c|;
      ghost var before := opTable;
      while j < |opTable[i]| - 1
        invariant |c| <= j <= w - 1 && |opTable| == h
        invariant opTable[i] == if j == |c| then CoefficientRow(rows[i - 1], w) else CoefficientRow(rows[i - 1], w)[i + |c| - 1 := 1.0]
        invariant forall k :: 0 <= k < h && k != i ==> opTable[k] == before[k]
      {
        opTable := opTable[i := opTable[i][i + |c| - 1 := 1.0]];
        j := j + 1;
      }
      i := i + 1;
    }
    FormulationTableIs(c, rows, opTable);
  }

  lemma FormulationTableIs(c: seq<real>, rows: seq<seq<real>>, opTable: Table)
    requires RowsFit(|c|, rows)
    requires |opTable| == |rows| + 1
    requires opTable[0] == ObjectivePrefix(c, |c| + |rows| + 1, |c|)
    requires forall k :: 1 <= k <= |rows| ==>
      opTable[k] == CoefficientRow(rows[k - 1], |c| + |rows| + 1)[k + |c| - 1 := 1.0]
    ensures opTable == FormulationTable(c, rows)
  {
    var T := FormulationTable(c, rows);
    forall i | 0 <= i < |T| ensures opTable[i] == T[i] {
      assert |opTable[i]| == |T[i]|;
    }
  }

  // ---------------------------------------------------------------------
  // The loops shared by both pivot operations

  /** Builds the pivoted table into fresh rows of zeros: the pivot row divided
      by the pivot, then every other row minus its pivot-column entry times the
      new pivot row. The input table is not changed. */
  method PivotedCopy(tab: Table, r: nat, c: nat) returns (newTab: Table)
    requires IsGrid(tab) && r < |tab| && c < |tab[0]| && tab[r][c] != 0.0
    ensures newTab == PivotTable(tab, r, c)
  {
    var w := |tab[0]|;
    var divNumber := tab[r][c];
    newTab := seq(|tab|, i requires 0 <= i < |tab| => seq(|tab[i]|, j => 0.0));
    var j := 0;
    while j < w
      invariant 0 <= j <= w && |newTab| == |tab| && Rectangular(newTab, w)
      invariant forall q :: 0 <= q < j ==> newTab[r][q] == tab[r][q] / divNumber
      invariant forall i :: 0 <= i < |tab| && i != r ==> newTab[i] == seq(w, q => 0.0)
    {
      newTab := newTab[r := newTab[r][j := tab[r][j] / divNumber]];
      j := j + 1;
    }
    var P := PivotTable(tab, r, c);
    assert newTab[r] == P[r];
    var i := 0;
    while i < |tab|
      invariant 0 <= i <= |tab| && |newTab| == |tab| && Rectangular(newTab, w)
      invariant newTab[r] == P[r]
      invariant forall k :: 0 <= k < i ==> newTab[k] == P[k]
    {
      if i != r {
        j := 0;
        ghost var before := newTab;
        while j < w
          invariant 0 <= j <= w && |newTab| == |tab| && Rectangular(newTab, w)
          invariant forall q :: 0 <= q < j ==> newTab[i][q] == P[i][q]
          invariant forall k :: 0 <= k < |tab| && k != i ==> newTab[k] == before[k]
        {
          newTab := newTab[i := newTab[i][j := tab[i][j] - tab[i][c] * newTab[r][j]]];
          j := j + 1;
        }
        assert newTab[i] == P[i];
      }
      i := i + 1;
    }
  }

  /** The dual ratio row of pivot row r: first the columns where row r is
      negative, then |z_j / a_rj| for those columns and +inf for the rest. */
  method RatioRow(T: Table, r: nat) returns (thetas: seq<ExtReal>)
    requires IsGrid(T) && r < |T|
    ensures thetas == DualThetas(T, r)
  {
    // negPivotCols holds the column index where the pivot row is negative, +inf elsewhere
    var negPivotCols: seq<ExtReal> := [];
    var i := 0;
    while i < |T[r]| - 1
      invariant 0 <= i <= |T[0]| - 1 && |negPivotCols| == i
      invariant forall k :: 0 <= k < i ==> negPivotCols[k] == if T[r][k] < 0.0 then Finite(k as real) else PosInf
    {
      negPivotCols := negPivotCols + [if T[r][i] < 0.0 then Finite(i as real) else PosInf];
      i := i + 1;
    }
    thetas := [];
    i := 0;
    while i < |negPivotCols|
      invariant 0 <= i <= |negPivotCols| && |thetas| == i
      invariant thetas == DualThetas(T, r)[..i]
    {
      if negPivotCols[i] != PosInf {
        var pivotColIndex := negPivotCols[i].r.Floor;
        thetas := thetas + [Finite(Abs(T[0][pivotColIndex] / T[r][pivotColIndex]))];
      } else {
        thetas := thetas + [PosInf];
      }
      i := i + 1;
    }
    assert DualThetas(T, r)[..i] == DualThetas(T, r);
  }

  /** RHS over pivot-column entry for each constraint row; +inf where the
      entry is zero. */
  method RatioColumn(tab: Table, c: nat) returns (thetas: seq<ExtReal>)
    requires IsGrid(tab) && c < |tab[0]|
    ensures thetas == PrimalThetas(tab, c)
  {
    thetas := [];
    var i := 1;
    while i < |tab|
      invariant 1 <= i <= |tab| && thetas == PrimalThetas(tab, c)[..i - 1]
    {
      thetas := thetas + [if tab[i][c] != 0.0 then Finite(LastOf(tab[i]) / tab[i][c]) else PosInf];
      i := i + 1;
    }
  }

  lemma SeqAssoc4<T>(a: seq<T>, b: seq<T>, c: seq<T>, d: seq<T>, e: seq<T>)
    ensures (((a + b) + c) + d) + e == a + (((b + c) + d) + e)
  {
  }

  /** The decision values read from the final table (DualSimplex.cs:475-503):
      a column with one nonzero entry reads the RHS of the row where its
      magnitude is 1, any other column reads 0, and a failed IndexOf empties
      the whole list. */
  method ReadChangingVars(T: Table, lenObj: nat) returns (changingVars: seq<real>)
    requires IsGrid(T) && lenObj <= |T[0]|
    ensures changingVars == ChangingVars(T, lenObj)
  {
    var tSCVars: seq<Option<seq<real>>> := [];
    var k := 0;
    while k < lenObj
      invariant 0 <= k <= lenObj && |tSCVars| == k
      invariant forall q :: 0 <= q < k ==>
        tSCVars[q] == if NonzeroCount(Column(T, q)) == 1 then Some(Column(T, q)) else None
    {
      var tCVars := Column(T, k);
      tSCVars := tSCVars + [if NonzeroCount(tCVars) == 1 then Some(tCVars) else None];
      k := k + 1;
    }
    changingVars := [];
    var i := 0;
    while i < |tSCVars|
      invariant 0 <= i <= lenObj && |changingVars| == i
      invariant forall q :: 0 <= q < i ==> ChangingValue(T, q) == Some(changingVars[q])
    {
      if tSCVars[i].Some? {
        var row := IndexOf(AbsAll(tSCVars[i].value), 1.0);
        if row < 0 {
          // indexing the table at -1 throws and the handler empties the list
          assert ChangingValue(T, i).None?;
          return [];
        }
        changingVars := changingVars + [LastOf(T[row])];
      } else {
        changingVars := changingVars + [0.0];
      }
      i := i + 1;
    }
  }

  class DualSimplex {
    var pivotCols: seq<int>
    var pivotRows: seq<int>
    var headerRow: seq<string>
    var phases: seq<int>

    /** Every pivot records its column and its row together. */
    predicate Valid()
      reads this
    {
      |pivotCols| == |pivotRows|
    }

    constructor ()
      ensures Valid()
      ensures pivotCols == [] && pivotRows == [] && headerRow == [] && phases == []
    {
      pivotCols := [];
      pivotRows := [];
      headerRow := [];
      phases := [];
    }

    /** One of the header loops: appends prefix+start, ... while counting imCtr up. */
    method AppendNames(prefix: string, start: nat, count: nat)
      modifies this
      ensures headerRow == old(headerRow) + NamesFrom(prefix, start, count)
      ensures pivotCols == old(pivotCols) && pivotRows == old(pivotRows) && phases == old(phases)
    {
      var imCtr := start;
      var i := 0;
      while i < count
        invariant 0 <= i <= count && imCtr == start + i
        invariant headerRow == old(headerRow) + NamesFrom(prefix, start, i)
        invariant pivotCols == old(pivotCols) && pivotRows == old(pivotRows) && phases == old(phases)
      {
        headerRow := headerRow + [Name(prefix, imCtr)];
        imCtr := imCtr + 1;
        i := i + 1;
      }
    }

    /** Appends x1..xn, e1..ek, s(k+1)..s(k+s) and "rhs" to the header: the
        counter restarts at 1 for the e names and carries on into the s names. */
    method AppendHeader(n: nat, excess: nat, slack: nat)
      modifies this
      ensures headerRow == old(headerRow) + HeaderNames(n, excess, slack)
      ensures pivotCols == old(pivotCols) && pivotRows == old(pivotRows) && phases == old(phases)
    {
      ghost var h0 := headerRow;
      AppendNames("x", 1, n);
      AppendNames("e", 1, excess);
      AppendNames("s", excess + 1, slack);
      headerRow := headerRow + ["rhs"];
      ghost var X, E, S := NamesFrom("x", 1, n), NamesFrom("e", 1, excess), NamesFrom("s", excess + 1, slack);
      SeqAssoc4(h0, X, E, S, ["rhs"]);
    }

    /** Changes the caller's rows (excess rows negated, flags dropped), appends
        the header and returns the first table. */
    method DoFormulationOperation(objFunc: seq<real>, constraints: array<seq<real>>) returns (opTable: Table)
      requires forall i :: 0 <= i < constraints.Length ==> 2 <= |constraints[i]| <= |objFunc| + constraints.Length + 3
      modifies this, constraints
      ensures constraints[..] == FormulatedRows(old(constraints[..]))
      ensures RowsFit(|objFunc|, constraints[..])
      ensures opTable == FormulationTable(objFunc, constraints[..])
      ensures var excess := CountExcess(old(constraints[..]));
        headerRow == old(headerRow) + HeaderNames(|objFunc|, excess, constraints.Length - excess)
      ensures pivotCols == old(pivotCols) && pivotRows == old(pivotRows) && phases == old(phases)
    {
      ghost var original := constraints[..];
      var excessCount, slackCount := CountRowKinds(constraints);
      assert excessCount == CountExcess(original) && slackCount == constraints.Length - excessCount;
      FormulateRows(|objFunc|, constraints);
      AppendHeader(|objFunc|, excessCount, slackCount);
      opTable := BuildFormulationTable(objFunc, constraints[..]);
    }

    /** The first loop of the formulation: rows flagged 1 (>=) are excess
        rows, every other row a slack row. */
    static method CountRowKinds(constraints: array<seq<real>>) returns (excessCount: nat, slackCount: nat)
      requires forall i :: 0 <= i < constraints.Length ==> |constraints[i]| >= 1
      ensures excessCount == CountExcess(constraints[..]) && excessCount + slackCount == constraints.Length
    {
      excessCount, slackCount := 0, 0;
      var i := 0;
      while i < constraints.Length
        invariant 0 <= i <= constraints.Length
        invariant excessCount == CountExcess(constraints[..i]) && slackCount == i - excessCount
      {
        assert constraints[..i + 1][..i] == constraints[..i];
        if constraints[i][|constraints[i]| - 1] == 1.0 {
          excessCount := excessCount + 1;
        } else {
          slackCount := slackCount + 1;
        }
        i := i + 1;
      }
      assert constraints[..constraints.Length] == constraints[..];
    }

    /** The dual pivot: the most negative last entry (z-row included) picks the
        row, the smallest positive |z_j / a_rj| among a_rj < 0 the column. With
        no negative last entry, or no negative entry in that row, the input
        table comes back with no ratio row. */
    method DoDualPivotOperation(tab: Table) returns (newTab: Table, thetaRow: Option<seq<ExtReal>>)
      requires IsGrid(tab) && Valid()
      modifies this
      ensures Valid()
      ensures match DualStep(tab)
        case None =>
          newTab == tab && thetaRow.None? && pivotCols == old(pivotCols) && pivotRows == old(pivotRows)
        case Some(p) =>
          newTab == p.table && thetaRow == Some(p.thetas)
          && pivotCols == old(pivotCols) + [p.col] && pivotRows == old(pivotRows) + [p.row]
      ensures headerRow == old(headerRow) && phases == old(phases)
    {
      var rhs := LastColumn(tab);
      var rhsNeg := Filter(rhs, x => x < 0.0);
      if |rhsNeg| == 0 {
        return tab, None;
      }
      var minRhsNum := MinOf(rhsNeg);
      assert minRhsNum in rhsNeg;
      var pivotRow := IndexOf(rhs, minRhsNum);
      assert pivotRow >= 0;
      assert pivotRow == DualPivotRow(tab);
      var dualPivotThetas := RatioRow(tab, pivotRow);
      var smallestPosPivotTheta := DualTarget(dualPivotThetas);
      var colIndex := IndexOf(dualPivotThetas, smallestPosPivotTheta);
      if colIndex < 0 {
        // tab[rowIndex][-1] throws and the handler returns the input
        return tab, None;
      }
      DualPivotColumnSpec(tab, pivotRow);
      newTab := PivotedCopy(tab, pivotRow, colIndex);
      pivotCols := pivotCols + [colIndex];
      pivotRows := pivotRows + [pivotRow];
      thetaRow := Some(dualPivotThetas);
    }

    /** The primal pivot: for max the first most negative z entry enters, for
        min the first smallest positive one; the first row with the smallest
        positive ratio (or, failing that, a zero ratio) leaves. No entering
        column, all ratios negative, or no usable ratio gives no table. */
    method DoPrimalPivotOperation(tab: Table, isMin: bool) returns (operationTab: Option<Table>, thetasCol: Option<seq<ExtReal>>)
      requires IsGrid(tab) && Valid()
      modifies this
      ensures Valid()
      ensures match PrimalStep(tab, isMin)
        case None =>
          operationTab.None? && thetasCol.None? && pivotCols == old(pivotCols) && pivotRows == old(pivotRows)
        case Some(p) =>
          operationTab == Some(p.table) && thetasCol == Some(p.thetas)
          && pivotCols == old(pivotCols) + [p.col] && pivotRows == old(pivotRows) + [p.row]
      ensures headerRow == old(headerRow) && phases == old(phases)
    {
      // Where(...).Min() and IndexOf on the z-row; an empty candidate list
      // throws and the handler returns nulls
      var colIndex := PrimalColumn(tab, isMin);
      if colIndex < 0 {
        return None, None;
      }
      var thetas := RatioColumn(tab, colIndex);
      // all-negative ratios, or no positive and no zero ratio: no pivot (the
      // source's later checks, an infinite minimum and a zero pivot, cannot
      // fire once a finite ratio is chosen)
      var leaving := PrimalLeaving(thetas);
      if leaving.None? {
        return None, None;
      }
      var rowIndex := leaving.value;
      assert tab[rowIndex][colIndex] != 0.0;
      var t := PivotedCopy(tab, rowIndex, colIndex);
      pivotCols := pivotCols + [colIndex];
      pivotRows := pivotRows + [rowIndex];
      operationTab, thetasCol := Some(t), Some(thetas);
    }

    /** Counts the rows typed 1 or 2 and the others, then formulates. */
    method GetInput(objFunc: seq<real>, constraints: array<seq<real>>, isMin: bool)
      returns (tab: Table, isMinOut: bool, amtOfE: nat, amtOfS: nat, lenObj: nat)
      requires forall i :: 0 <= i < constraints.Length ==> 2 <= |constraints[i]| <= |objFunc| + constraints.Length + 3
      modifies this, constraints
      ensures amtOfE == CountFlagged(old(constraints[..])) && amtOfS == CountUnflagged(old(constraints[..]))
      ensures amtOfE + amtOfS == constraints.Length
      ensures constraints[..] == FormulatedRows(old(constraints[..]))
      ensures RowsFit(|objFunc|, constraints[..])
      ensures tab == FormulationTable(objFunc, constraints[..])
      ensures isMinOut == isMin && lenObj == |objFunc|
      ensures var excess := CountExcess(old(constraints[..]));
        headerRow == old(headerRow) + HeaderNames(|objFunc|, excess, constraints.Length - excess)
      ensures pivotCols == old(pivotCols) && pivotRows == old(pivotRows) && phases == old(phases)
    {
      amtOfE := CountFlagged(constraints[..]);
      amtOfS := CountUnflagged(constraints[..]);
      FlagCountsPartition(constraints[..]);
      tab := DoFormulationOperation(objFunc, constraints);
      isMinOut, lenObj := isMin, |objFunc|;
    }

    /** One pass of the phase-1 loop body on the last table of the history:
        the exit test on the last column, the fuel bound, then a dual pivot. */
    method DualIteration(last: Table, left: nat) returns (next: Option<Table>, stop: Stop, ghost p: Pivoting)
      requires IsGrid(last) && Valid()
      modifies this
      ensures Valid() && headerRow == old(headerRow) && phases == old(phases)
      ensures next.None? ==>
        (DualDone(last) || left == 0 || DualNext(last).None?)
        && stop == (if DualDone(last) then Reached else if left == 0 then Exhausted else Stuck)
        && pivotCols == old(pivotCols) && pivotRows == old(pivotRows)
      ensures next.Some? ==>
        !DualDone(last) && left > 0 && DualNext(last) == Some(p) && IsGrid(p.table) && next.value == p.table
        && pivotCols == old(pivotCols) + [p.col] && pivotRows == old(pivotRows) + [p.row]
    {
      p := Pivoting([], 0, 0, []);
      if RhsAbove(last, -RhsEpsilon) {
        return None, Reached, p;
      }
      if left == 0 {
        return None, Exhausted, p;
      }
      var newTab, thetaRow := DoDualPivotOperation(last);
      if thetaRow.None? {
        return None, Stuck, p;
      }
      p := DualStep(last).value;
      DualStepSpec(last);
      next, stop := Some(newTab), Reached;
    }

    /** Phase 1: dual pivots until every last-column value is at least -1e-9
        (DualSimplex.cs:313-352), each new table appended to the history and
        tagged 0. */
    method RunDualPhase(T0: Table, fuel: nat) returns (tableaus: seq<Table>, stop: Stop)
      requires IsGrid(T0) && Valid()
      modifies this
      ensures var D := DualPhase(T0, fuel);
        tableaus == D.tables && stop == D.stop
        && pivotCols == old(pivotCols) + StepCols(D.steps) && pivotRows == old(pivotRows) + StepRows(D.steps)
        && phases == old(phases) + Tags(0, |D.steps|)
      ensures headerRow == old(headerRow) && Valid()
    {
      tableaus := [T0];
      var left: nat := fuel;
      ghost var done: seq<Pivoting> := [];
      while true
        invariant |tableaus| > 0 && IsGrid(LastTable(tableaus)) && Valid()
        invariant tableaus[0] == T0 && Linked(tableaus, done, DualDone, DualNext) && |done| + left == fuel
        invariant pivotCols == old(pivotCols) + StepCols(done) && pivotRows == old(pivotRows) + StepRows(done)
        invariant phases == old(phases) + Tags(0, |done|) && headerRow == old(headerRow)
        decreases left
      {
        ghost var cols, rows := pivotCols, pivotRows;
        var next, st, p := DualIteration(tableaus[|tableaus| - 1], left);
        if next.None? {
          RunFromLinked(tableaus, done, DualDone, DualNext, fuel, left);
          RunStops(tableaus, done, DualDone, DualNext, left);
          return tableaus, st;
        }
        LinkedSnoc(tableaus, done, DualDone, DualNext, p);
        RecordsStep(old(pivotCols), old(pivotRows), old(phases), done, p, 0, cols, rows, phases);
        tableaus := tableaus + [next.value];
        phases := phases + [0];
        done := done + [p];
        left := left - 1;
      }
    }

    /** One pass of the phase-2 loop body: the optimality test on the z-row,
        the fuel bound, then a primal pivot. */
    method PrimalIteration(last: Table, isMin: bool, left: nat) returns (next: Option<Table>, stop: Stop, ghost p: Pivoting)
      requires IsGrid(last) && Valid()
      modifies this
      ensures Valid() && headerRow == old(headerRow) && phases == old(phases)
      ensures next.None? ==>
        (PrimalDone(isMin)(last) || left == 0 || PrimalNext(isMin)(last).None?)
        && stop == (if PrimalDone(isMin)(last) then Reached else if left == 0 then Exhausted else Stuck)
        && pivotCols == old(pivotCols) && pivotRows == old(pivotRows)
      ensures next.Some? ==>
        !PrimalDone(isMin)(last) && left > 0 && PrimalNext(isMin)(last) == Some(p) && IsGrid(p.table) && next.value == p.table
        && pivotCols == old(pivotCols) + [p.col] && pivotRows == old(pivotRows) + [p.row]
    {
      p := Pivoting([], 0, 0, []);
      if ObjectiveDone(last, isMin) {
        return None, Reached, p;
      }
      if left == 0 {
        return None, Exhausted, p;
      }
      var newTab, thetaCol := DoPrimalPivotOperation(last, isMin);
      if thetaCol.None? {
        return None, Stuck, p;
      }
      p := PrimalStep(last, isMin).value;
      PrimalStepSpec(last, isMin);
      next, stop := Some(newTab.value), Reached;
    }

    /** Phase 2: primal pivots until the z-row admits no entering column
        (DualSimplex.cs:354-400); a failed pivot ends the loop, since its null
        ratio column throws inside the try. Each new table is tagged 1. */
    method RunPrimalPhase(T0: Table, isMin: bool, fuel: nat) returns (tableaus: seq<Table>, stop: Stop)
      requires IsGrid(T0) && Valid()
      modifies this
      ensures var P := PrimalPhase(T0, isMin, fuel);
        tableaus == P.tables && stop == P.stop
        && pivotCols == old(pivotCols) + StepCols(P.steps) && pivotRows == old(pivotRows) + StepRows(P.steps)
        && phases == old(phases) + Tags(1, |P.steps|)
      ensures headerRow == old(headerRow) && Valid()
    {
      tableaus := [T0];
      var left: nat := fuel;
      ghost var done: seq<Pivoting> := [];
      while true
        invariant |tableaus| > 0 && IsGrid(LastTable(tableaus)) && Valid()
        invariant tableaus[0] == T0 && Linked(tableaus, done, PrimalDone(isMin), PrimalNext(isMin)) && |done| + left == fuel
        invariant pivotCols == old(pivotCols) + StepCols(done) && pivotRows == old(pivotRows) + StepRows(done)
        invariant phases == old(phases) + Tags(1, |done|) && headerRow == old(headerRow)
        decreases left
      {
        ghost var cols, rows := pivotCols, pivotRows;
        var next, st, p := PrimalIteration(tableaus[|tableaus| - 1], isMin, left);
        if next.None? {
          RunFromLinked(tableaus, done, PrimalDone(isMin), PrimalNext(isMin), fuel, left);
          RunStops(tableaus, done, PrimalDone(isMin), PrimalNext(isMin), left);
          return tableaus, st;
        }
        LinkedSnoc(tableaus, done, PrimalDone(isMin), PrimalNext(isMin), p);
        RecordsStep(old(pivotCols), old(pivotRows), old(phases), done, p, 1, cols, rows, phases);
        tableaus := tableaus + [next.value];
        phases := phases + [1];
        done := done + [p];
        left := left - 1;
      }
    }

    /** The result read off a history (DualSimplex.cs:462-514). */
    method ReadResult(tableaus: seq<Table>, lenObj: nat) returns (result: Outcome)
      requires |tableaus| > 0 && IsGrid(LastTable(tableaus))
      ensures result == Finish(tableaus, lenObj, pivotCols, pivotRows, phases, headerRow).outcome
    {
      var last := tableaus[|tableaus| - 1];
      if lenObj > |last[0]| {
        // a column read past the end of a row throws
        return Crashed;
      }
      var changingVars := ReadChangingVars(last, lenObj);
      var optimalSolution := LastOf(last[0]);
      result := Solved(tableaus, changingVars, optimalSolution, pivotCols, pivotRows, headerRow);
    }

    /** The whole solve (DualSimplex.cs:297-515): formulate, replace the start
        table by tabOverride when one is given (resetting the pivot records
        and dropping the last header name), run phase 1 and, when the z-row
        is not yet optimal, phase 2, then drop a final table with a negative
        last-column value and read the result. */
    method DoDualSimplex(objFunc: seq<real>, constraints: array<seq<real>>, isMin: bool,
                         tabOverride: Option<Table>, fuel: nat) returns (result: Outcome)
      requires forall i :: 0 <= i < constraints.Length ==> 2 <= |constraints[i]| <= |objFunc| + constraints.Length + 3
      requires tabOverride.Some? ==> IsGrid(tabOverride.value)
      requires Valid()
      modifies this, constraints
      ensures constraints[..] == FormulatedRows(old(constraints[..])) && RowsFit(|objFunc|, constraints[..])
      ensures var excess := CountExcess(old(constraints[..]));
        var names := old(headerRow) + HeaderNames(|objFunc|, excess, constraints.Length - excess);
        var header := if tabOverride.Some? then DropLast(names) else names;
        var T0 := if tabOverride.Some? then tabOverride.value else FormulationTable(objFunc, constraints[..]);
        var cols0 := if tabOverride.Some? then [] else old(pivotCols);
        var rows0 := if tabOverride.Some? then [] else old(pivotRows);
        var e := DualSimplexRun(T0, isMin, |objFunc|, fuel, cols0, rows0, old(phases), header);
        result == e.outcome && pivotCols == e.cols && pivotRows == e.rows && phases == e.phases
        && headerRow == header
      ensures Valid()
    {
      var tab, isMinLocal, lenObj := StartTable(objFunc, constraints, isMin, tabOverride);
      result := RunFrom(tab, isMinLocal, lenObj, fuel);
    }

    /** The part of DoDualSimplex before phase 1: formulating the input, or
        taking the caller's table and dropping the last header name. */
    method StartTable(objFunc: seq<real>, constraints: array<seq<real>>, isMin: bool,
                      tabOverride: Option<Table>) returns (tab: Table, isMinOut: bool, lenObj: nat)
      requires forall i :: 0 <= i < constraints.Length ==> 2 <= |constraints[i]| <= |objFunc| + constraints.Length + 3
      requires tabOverride.Some? ==> IsGrid(tabOverride.value)
      requires Valid()
      modifies this, constraints
      ensures constraints[..] == FormulatedRows(old(constraints[..])) && RowsFit(|objFunc|, constraints[..])
      ensures tab == if tabOverride.Some? then tabOverride.value else FormulationTable(objFunc, constraints[..])
      ensures IsGrid(tab) && isMinOut == isMin && lenObj == |objFunc|
      ensures var excess := CountExcess(old(constraints[..]));
        var names := old(headerRow) + HeaderNames(|objFunc|, excess, constraints.Length - excess);
        headerRow == if tabOverride.Some? then DropLast(names) else names
      ensures pivotCols == (if tabOverride.Some? then [] else old(pivotCols))
      ensures pivotRows == (if tabOverride.Some? then [] else old(pivotRows))
      ensures phases == old(phases) && Valid()
    {
      var amtOfE, amtOfS;
      tab, isMinOut, amtOfE, amtOfS, lenObj := GetInput(objFunc, constraints, isMin);
      ghost var names := headerRow;
      if tabOverride.Some? {
        tab := tabOverride.value;
        pivotCols, pivotRows := [], [];
        headerRow := headerRow[..|headerRow| - 1];
        assert headerRow == DropLast(names);
      }
    }

    /** Both phases and the reading of the result from start table T0. */
    method RunFrom(T0: Table, isMin: bool, lenObj: nat, fuel: nat) returns (result: Outcome)
      requires IsGrid(T0) && Valid()
      modifies this
      ensures var e := DualSimplexRun(T0, isMin, lenObj, fuel, old(pivotCols), old(pivotRows), old(phases), old(headerRow));
        result == e.outcome && pivotCols == e.cols && pivotRows == e.rows && phases == e.phases
      ensures headerRow == old(headerRow) && Valid()
    {
      var tableaus, stop := RunDualPhase(T0, fuel);
      DualPhaseSpec(T0, fuel);
      if stop == Stuck {
        return NoOptimum(tableaus);
      }
      if stop == Exhausted {
        return OutOfFuel(tableaus);
      }
      var last := tableaus[|tableaus| - 1];
      if !ObjectiveDone(last, isMin) {
        ghost var D := tableaus;
        var more, stop2 := RunPrimalPhase(last, isMin, fuel);
        PrimalPhaseSpec(last, isMin, fuel);
        tableaus := tableaus + more[1..];
        AllGridsJoin(D, T0, more, last);
        if stop2 == Exhausted {
          return OutOfFuel(tableaus);
        }
        result := FinishPrimal(tableaus, lenObj);
      } else {
        result := ReadResult(tableaus, lenObj);
      }
    }

    /** After phase 2 (DualSimplex.cs:403-411 and 462-514): a last table with a
        negative last-column value is dropped with the last pivot record, then
        the result is read. */
    method FinishPrimal(tableaus: seq<Table>, lenObj: nat) returns (result: Outcome)
      requires |tableaus| > 0 && AllGrids(tableaus) && Valid()
      modifies this
      ensures var e := AfterPrimal(tableaus, lenObj, old(pivotCols), old(pivotRows), old(phases), old(headerRow));
        result == e.outcome && pivotCols == e.cols && pivotRows == e.rows && phases == e.phases
      ensures headerRow == old(headerRow) && Valid()
    {
      var kept := tableaus;
      if !RhsAbove(tableaus[|tableaus| - 1], 0.0) {
        // the table goes first, then the records; an empty record list throws
        if |pivotCols| == 0 {
          return Crashed;
        }
        kept := tableaus[..|tableaus| - 1];
        pivotCols := pivotCols[..|pivotCols| - 1];
        pivotRows := pivotRows[..|pivotRows| - 1];
        if |kept| == 0 {
          // Last() of an empty list throws
          return Crashed;
        }
        assert kept[|kept| - 1] == tableaus[|tableaus| - 2];
      }
      result := ReadResult(kept, lenObj);
    }
  }
}

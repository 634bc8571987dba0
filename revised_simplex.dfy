/** The RevisedPrimalSimplex class of Algorithms/RevisedSimplex.cs: the sign
    substitution that refills its variableTransformations list, the way back
    to the original variables, the first table of the dual simplex, the
    solution read off a final table and the basis read off the tableaus. */
module RevisedSimplex {
  import opened Common
  import opened RevisedMatrix
  import opened RevisedTransform
  import opened RevisedBasis
  import ListDualSimplexSpec
  import ListDualSimplex

  /** Every row with one more entry, the coefficient of variable i from its
      original row (negated when asked), at column t after padding. */
  method CopyColumn(rows: seq<seq<real>>, constraints: seq<seq<real>>, i: nat, t: nat, negate: bool)
    returns (res: seq<seq<real>>)
    requires |rows| == |constraints|
    requires forall j :: 0 <= j < |rows| ==> |rows[j]| == t && i < |constraints[j]|
    ensures |res| == |rows|
    ensures forall j :: 0 <= j < |rows| ==>
      res[j] == rows[j] + [if negate then -constraints[j][i] else constraints[j][i]]
  {
    res := rows;
    for j := 0 to |rows|
      invariant |res| == |rows|
      invariant forall q :: 0 <= q < j ==> res[q] == rows[q] + [if negate then -constraints[q][i] else constraints[q][i]]
      invariant forall q :: j <= q < |rows| ==> res[q] == rows[q]
    {
      var row := res[j];
      if |row| <= t {
        while |row| <= t
          invariant t <= |row| <= t + 1 && row == rows[j] + Zeros(|row| - t)
        {
          row := row + [0.0];
        }
      }
      row := row[t := if negate then -constraints[j][i] else constraints[j][i]];
      res := res[j := row];
    }
  }

  /** Every row with two more entries, the coefficient of the free variable i
      and its negation, at columns t and t + 1 after padding. */
  method SplitColumn(rows: seq<seq<real>>, constraints: seq<seq<real>>, i: nat, t: nat)
    returns (res: seq<seq<real>>)
    requires |rows| == |constraints|
    requires forall j :: 0 <= j < |rows| ==> |rows[j]| == t && i < |constraints[j]|
    ensures |res| == |rows|
    ensures forall j :: 0 <= j < |rows| ==> res[j] == rows[j] + [constraints[j][i], -constraints[j][i]]
  {
    res := rows;
    for j := 0 to |rows|
      invariant |res| == |rows|
      invariant forall q :: 0 <= q < j ==> res[q] == rows[q] + [constraints[q][i], -constraints[q][i]]
      invariant forall q :: j <= q < |rows| ==> res[q] == rows[q]
    {
      var row := res[j];
      while |row| <= t + 1
        invariant t <= |row| <= t + 2 && row == rows[j] + Zeros(|row| - t)
      {
        row := row + [0.0];
      }
      row := row[t := constraints[j][i]][t + 1 := -constraints[j][i]];
      res := res[j := row];
    }
  }

  /** The RHS and the type of every original row appended to its coefficients. */
  method AppendRhsAndType(rows: seq<seq<real>>, constraints: seq<seq<real>>) returns (res: seq<seq<real>>)
    requires |rows| == |constraints| && forall j :: 0 <= j < |rows| ==> 2 <= |constraints[j]|
    ensures |res| == |rows|
    ensures forall j :: 0 <= j < |rows| ==>
      res[j] == rows[j] + [constraints[j][|constraints[j]| - 2], constraints[j][|constraints[j]| - 1]]
  {
    res := rows;
    for i := 0 to |rows|
      invariant |res| == |rows|
      invariant forall q :: 0 <= q < i ==>
        res[q] == rows[q] + [constraints[q][|constraints[q]| - 2], constraints[q][|constraints[q]| - 1]]
      invariant forall q :: i <= q < |rows| ==> res[q] == rows[q]
    {
      // Every row already holds newVarIndex coefficients, so the padding loop
      // of the source adds nothing here.
      var row := res[i];
      row := row + [constraints[i][|constraints[i]| - 2]];
      row := row + [constraints[i][|constraints[i]| - 1]];
      res := res[i := row];
    }
  }

  /** One row x_b <= 1 appended per binary column b, in order. */
  method AppendBinaryRows(rows: seq<seq<real>>, w: nat, binaryVariableIndices: seq<nat>) returns (res: seq<seq<real>>)
    requires forall q :: 0 <= q < |binaryVariableIndices| ==> binaryVariableIndices[q] < w
    ensures res == rows + BinaryRows(w, binaryVariableIndices)
  {
    res := rows;
    for k := 0 to |binaryVariableIndices|
      invariant res == rows + BinaryRows(w, binaryVariableIndices[..k])
    {
      var b := binaryVariableIndices[k];
      var binaryConstraint: seq<real> := [];
      for q := 0 to w
        invariant binaryConstraint == Zeros(q)
      {
        binaryConstraint := binaryConstraint + [0.0];
      }
      binaryConstraint := binaryConstraint[b := 1.0];
      binaryConstraint := binaryConstraint + [1.0];
      binaryConstraint := binaryConstraint + [-1.0];
      assert binaryConstraint == BinaryRow(w, b);
      assert BinaryRows(w, binaryVariableIndices[..k + 1]) == BinaryRows(w, binaryVariableIndices[..k]) + [BinaryRow(w, b)];
      res := res + [binaryConstraint];
    }
    assert binaryVariableIndices[..|binaryVariableIndices|] == binaryVariableIndices;
  }

  /** On the first table of the dual simplex, cbv holds the objective
      coefficient of each decision-variable spot and 0 for a slack spot, and
      the row of matB for slack spot n + k is the k-th unit row. */
  lemma BasisOfFormulationTable(c: seq<real>, rows: seq<seq<real>>, spots: seq<nat>)
    requires ListDualSimplexSpec.RowsFit(|c|, rows)
    requires forall r :: 0 <= r < |rows| ==> |rows[r]| - 1 <= |c|
    requires forall i :: 0 <= i < |spots| ==> spots[i] < |c| + |rows| + 1
    ensures var T := ListDualSimplexSpec.FormulationTable(c, rows);
      (forall i :: 0 <= i < |spots| ==> CostsOfBasis(T, spots)[i] == if spots[i] < |c| then c[spots[i]] else 0.0)
      && forall i, j :: 0 <= i < |spots| && |c| <= spots[i] < |c| + |rows| && 0 <= j < |rows| ==>
           BasisRows(T, spots)[i][j] == if spots[i] - |c| == j then 1.0 else 0.0
  {
    ListDualSimplexSpec.FormulationLayout(c, rows);
  }

  class RevisedPrimalSimplex {
    var isConsoleOutput: bool
    var objFunc: seq<real>
    var constraints: seq<seq<real>>
    var variableTransformations: seq<Transformation>

    /** A placeholder problem (objective [0, 0], one row of four zeros) and no records. */
    constructor (isConsoleOutput: bool)
      ensures this.isConsoleOutput == isConsoleOutput
      ensures objFunc == [0.0, 0.0] && constraints == [[0.0, 0.0, 0.0, 0.0]]
      ensures variableTransformations == []
    {
      this.isConsoleOutput := isConsoleOutput;
      objFunc := [0.0, 0.0];
      constraints := [[0.0, 0.0, 0.0, 0.0]];
      variableTransformations := [];
    }

    /** The substituted objective and rows, the binary rows after the
        originals, and one record per original variable in the field. */
    method TransformVariableSignRestrictions(objFunc: seq<real>, constraints: seq<seq<real>>, varSigns: seq<SignType>)
      returns (transformedObjFunc: seq<real>, transformedConstraints: seq<seq<real>>)
      requires |objFunc| <= |varSigns|
      requires forall j :: 0 <= j < |constraints| ==> |objFunc| <= |constraints[j]| && 2 <= |constraints[j]|
      modifies this
      ensures variableTransformations == Records(varSigns, |objFunc|)
      ensures transformedObjFunc == Substituted(objFunc, varSigns, |objFunc|)
      ensures var n := |objFunc|;
        transformedConstraints == TransformedRows(constraints, varSigns, n)
                                  + BinaryRows(Width(varSigns, n), BinaryIndices(varSigns, n))
      ensures isConsoleOutput == old(isConsoleOutput) && this.objFunc == old(this.objFunc)
      ensures this.constraints == old(this.constraints)
    {
      var n := |objFunc|;
      var rows, binaryVariableIndices, newVarIndex;
      transformedObjFunc, rows, binaryVariableIndices, newVarIndex := SubstituteAll(objFunc, constraints, varSigns);
      rows := AppendRhsAndType(rows, constraints);
      assert rows == TransformedRows(constraints, varSigns, n);
      transformedConstraints := AppendBinaryRows(rows, newVarIndex, binaryVariableIndices);
    }

    /** The loop over the original variables: the substituted objective and
        coefficient rows, the binary columns, newVarIndex and the records. */
    method SubstituteAll(objFunc: seq<real>, constraints: seq<seq<real>>, varSigns: seq<SignType>)
      returns (transformedObjFunc: seq<real>, rows: seq<seq<real>>, binaryVariableIndices: seq<nat>, newVarIndex: nat)
      requires |objFunc| <= |varSigns|
      requires forall j :: 0 <= j < |constraints| ==> |objFunc| <= |constraints[j]| && 2 <= |constraints[j]|
      modifies this
      ensures variableTransformations == Records(varSigns, |objFunc|)
      ensures transformedObjFunc == Substituted(objFunc, varSigns, |objFunc|)
      ensures |rows| == |constraints| && forall j :: 0 <= j < |rows| ==> rows[j] == Substituted(constraints[j], varSigns, |objFunc|)
      ensures binaryVariableIndices == BinaryIndices(varSigns, |objFunc|) && newVarIndex == Width(varSigns, |objFunc|)
      ensures isConsoleOutput == old(isConsoleOutput) && this.objFunc == old(this.objFunc)
      ensures this.constraints == old(this.constraints)
    {
      var n := |objFunc|;
      transformedObjFunc := [];
      rows := seq(|constraints|, j => []);
      variableTransformations := [];
      newVarIndex := 0;
      binaryVariableIndices := [];
      for i := 0 to n
        invariant newVarIndex == Width(varSigns, i)
        invariant transformedObjFunc == Substituted(objFunc, varSigns, i)
        invariant variableTransformations == Records(varSigns, i)
        invariant binaryVariableIndices == BinaryIndices(varSigns, i)
        invariant |rows| == |constraints|
        invariant forall j :: 0 <= j < |rows| ==> rows[j] == Substituted(constraints[j], varSigns, i)
        invariant isConsoleOutput == old(isConsoleOutput) && this.objFunc == old(this.objFunc)
        invariant this.constraints == old(this.constraints)
      {
        ghost var before := rows;
        var rec;
        transformedObjFunc, rows, binaryVariableIndices, rec, newVarIndex :=
          SubstituteVariable(transformedObjFunc, rows, binaryVariableIndices, objFunc[i], constraints, i, varSigns[i], newVarIndex);
        variableTransformations := variableTransformations + [rec];
        forall j | 0 <= j < |rows| ensures rows[j] == Substituted(constraints[j], varSigns, i + 1) {
          assert rows[j] == before[j] + Part(constraints[j][i], varSigns[i]);
        }
      }
    }

    /** One case of the switch over the sign of variable i, whose columns
        start at t: its objective coefficients, its row coefficients, its
        record, the binary list and the next free column. */
    static method SubstituteVariable(transformedObjFunc: seq<real>, rows: seq<seq<real>>, binaryVariableIndices: seq<nat>,
                                     c: real, constraints: seq<seq<real>>, i: nat, sign: SignType, t: nat)
      returns (objOut: seq<real>, rowsOut: seq<seq<real>>, binaryOut: seq<nat>, rec: Transformation, next: nat)
      requires |rows| == |constraints|
      requires forall j :: 0 <= j < |rows| ==> |rows[j]| == t && i < |constraints[j]|
      ensures objOut == transformedObjFunc + Part(c, sign)
      ensures |rowsOut| == |rows| && forall j :: 0 <= j < |rows| ==> rowsOut[j] == rows[j] + Part(constraints[j][i], sign)
      ensures binaryOut == binaryVariableIndices + if sign == Binary then [t] else []
      ensures rec == Transformation(sign, i, t, if sign == Unrestricted then Some(t + 1) else None)
      ensures next == t + Columns(sign)
    {
      binaryOut := binaryVariableIndices;
      match sign {
        case Positive =>
          objOut := transformedObjFunc + [c];
          rec := Transformation(Positive, i, t, None);
          rowsOut := CopyColumn(rows, constraints, i, t, false);
          next := t + 1;
        case Negative =>
          objOut := transformedObjFunc + [-c];
          rec := Transformation(Negative, i, t, None);
          rowsOut := CopyColumn(rows, constraints, i, t, true);
          next := t + 1;
        case Unrestricted =>
          objOut := transformedObjFunc + [c, -c];
          rec := Transformation(Unrestricted, i, t, Some(t + 1));
          rowsOut := SplitColumn(rows, constraints, i, t);
          next := t + 2;
        case Integer =>
          objOut := transformedObjFunc + [c];
          rec := Transformation(Integer, i, t, None);
          rowsOut := CopyColumn(rows, constraints, i, t, false);
          next := t + 1;
        case Binary =>
          objOut := transformedObjFunc + [c];
          rec := Transformation(Binary, i, t, None);
          binaryOut := binaryVariableIndices + [t];
          rowsOut := CopyColumn(rows, constraints, i, t, false);
          next := t + 1;
      }
    }

    /** The original solution from a transformed one, by the records in the
        field; with no records the Max of the source throws. */
    method TransformSolutionBack(transformedSolution: seq<real>) returns (r: Result<seq<real>>)
      ensures r == SolutionBack(variableTransformations, transformedSolution)
    {
      var ts := variableTransformations;
      if |ts| == 0 {
        return Fail(NoElements);
      }
      var size := MaxOriginal(ts) + 1;
      var originalSolution: seq<real> := [];
      for i := 0 to size
        invariant originalSolution == Zeros(i)
      {
        originalSolution := originalSolution + [0.0];
      }
      for k := 0 to |ts|
        invariant originalSolution == ApplyAll(ts[..k], transformedSolution, Zeros(size))
      {
        var t := ts[k];
        assert ts[..k + 1][..k] == ts[..k];
        var ti := t.transformedIndex;
        match t.kind {
          case Negative =>
            if ti < |transformedSolution| {
              originalSolution := originalSolution[t.originalIndex := -transformedSolution[ti]];
            }
          case Unrestricted =>
            if ti < |transformedSolution| && t.transformedIndexNeg.Some?
               && t.transformedIndexNeg.value < |transformedSolution| {
              originalSolution := originalSolution[t.originalIndex :=
                transformedSolution[ti] - transformedSolution[t.transformedIndexNeg.value]];
            }
          case _ =>
            if ti < |transformedSolution| {
              originalSolution := originalSolution[t.originalIndex := transformedSolution[ti]];
            }
        }
      }
      assert ts[..|ts|] == ts;
      return Ok(originalSolution);
    }

    /** The first table of the dual simplex over the caller's rows, which it
        changes as DualSimplex does: excess rows negated, type flags dropped. */
    method DoFormulationOperation(objFunc: seq<real>, constraints: array<seq<real>>) returns (opTable: seq<seq<real>>)
      requires forall i :: 0 <= i < constraints.Length ==> 2 <= |constraints[i]| <= |objFunc| + constraints.Length + 3
      modifies constraints
      ensures constraints[..] == ListDualSimplexSpec.FormulatedRows(old(constraints[..]))
      ensures ListDualSimplexSpec.RowsFit(|objFunc|, constraints[..])
      ensures opTable == ListDualSimplexSpec.FormulationTable(objFunc, constraints[..])
    {
      var excessCount, slackCount := ListDualSimplex.DualSimplex.CountRowKinds(constraints);
      ListDualSimplex.FormulateRows(|objFunc|, constraints);
      opTable := ListDualSimplex.BuildFormulationTable(objFunc, constraints[..]);
    }

    /** The value of every column but the last, those headed "Z" left out. */
    static method ExtractSolution(tableau: Table, headers: seq<string>) returns (solution: seq<real>)
      requires forall q :: 0 <= q < |tableau| ==> |headers| - 1 <= |tableau[q]|
      ensures solution == Extracted(tableau, headers, if |headers| == 0 then 0 else |headers| - 1)
    {
      var limit := if |headers| == 0 then 0 else |headers| - 1;
      solution := [];
      for varIndex := 0 to limit
        invariant solution == Extracted(tableau, headers, varIndex)
      {
        ghost var named := headers[varIndex] != "Z";
        assert Extracted(tableau, headers, varIndex + 1)
          == Extracted(tableau, headers, varIndex) + if named then [ColumnValue(tableau, varIndex)] else [];
        if headers[varIndex] != "Z" {
          var isBasic, value := BasicValue(tableau, varIndex);
          solution := solution + [if isBasic then value else 0.0];
        }
      }
    }

    /** Whether column c has a unit row below the z-row, and the RHS of the first one. */
    static method BasicValue(tableau: Table, c: nat) returns (isBasic: bool, value: real)
      requires forall q :: 0 <= q < |tableau| ==> c < |tableau[q]|
      ensures (if isBasic then value else 0.0) == ColumnValue(tableau, c)
    {
      isBasic, value := false, 0.0;
      var row := 1;
      while row < |tableau|
        invariant 1 <= row <= |tableau| + 1
        invariant FirstUnitRow(tableau, c, 1) == FirstUnitRow(tableau, c, row)
      {
        if Abs(tableau[row][c] - 1.0) < UnitTol {
          var isUnit := OnlyEntry(tableau, row, c);
          if isUnit {
            isBasic := true;
            value := tableau[row][|tableau[row]| - 1];
            break;
          }
        }
        row := row + 1;
      }
    }

    /** Whether every row but row holds 0 in column c, up to the tolerance. */
    static method OnlyEntry(tableau: Table, row: nat, c: nat) returns (isUnit: bool)
      requires forall q :: 0 <= q < |tableau| ==> c < |tableau[q]|
      ensures isUnit <==> forall q :: 0 <= q < |tableau| && q != row ==> Abs(tableau[q][c]) <= UnitTol
    {
      isUnit := true;
      var checkRow := 0;
      while checkRow < |tableau|
        invariant 0 <= checkRow <= |tableau|
        invariant forall q :: 0 <= q < checkRow && q != row ==> Abs(tableau[q][c]) <= UnitTol
      {
        if checkRow != row && Abs(tableau[checkRow][c]) > UnitTol {
          isUnit := false;
          break;
        }
        checkRow := checkRow + 1;
      }
    }

    /** The basic-variable spots of the last tableau (columns summing to 1),
        reordered by the row of their 1, with their objective coefficients
        and their columns in the first tableau's constraint rows. */
    method BasisOfTableaus(tableaus: seq<Table>) returns (basicVarSpots: seq<nat>, cbv: seq<real>, matB: Table)
      requires |tableaus| > 0 && |tableaus[|tableaus| - 1]| > 0 && |tableaus[0]| > 0
      requires var last := tableaus[|tableaus| - 1]; var w := |last[|last| - 1]|;
        (forall q :: 0 <= q < |last| ==> w <= |last[q]|)
        && forall q :: 0 <= q < |tableaus[0]| ==> w <= |tableaus[0][q]|
      ensures var last := tableaus[|tableaus| - 1];
        basicVarSpots == SortedSpots(last, |last[|last| - 1]|)
      ensures cbv == CostsOfBasis(tableaus[0], basicVarSpots)
      ensures matB == BasisRows(tableaus[0], basicVarSpots)
    {
      var last := tableaus[|tableaus| - 1];
      var w := |last[|last| - 1]|;
      var spots := BasicVarSpots(last);
      var basicVarCols := BasicVarCols(last, spots);
      var zipped := seq(|spots|, q requires 0 <= q < |spots| => Spot(basicVarCols[q], spots[q]));
      assert zipped == Zipped(last, spots);
      var sorted := OrderByKey(zipped);
      basicVarSpots := Spots(sorted);
      assert basicVarSpots == SortedSpots(last, w);
      cbv := CostVector(tableaus[0], basicVarSpots);
      matB := BasisMatrix(tableaus[0], basicVarSpots);
    }

    /** The columns of the last tableau whose entries sum to 1, in order. */
    static method BasicVarSpots(last: Table) returns (spots: seq<nat>)
      requires |last| > 0 && forall q :: 0 <= q < |last| ==> |last[|last| - 1]| <= |last[q]|
      ensures spots == SpotsBelow(last, |last[|last| - 1]|)
    {
      var w := |last[|last| - 1]|;
      spots := [];
      for k := 0 to w
        invariant spots == SpotsBelow(last, k)
      {
        var tCVars: seq<real> := [];
        for i := 0 to |last|
          invariant tCVars == Column(last[..i], k)
        {
          tCVars := tCVars + [last[i][k]];
        }
        assert last[..|last|] == last;
        if Abs(Sum(tCVars) - 1.0) < UnitTol {
          spots := spots + [k];
        }
      }
    }

    /** The columns at the spots, in the order of the spots. */
    static method BasicVarCols(last: Table, spots: seq<nat>) returns (cols: seq<seq<real>>)
      requires |last| > 0 && forall q :: 0 <= q < |last| ==> |last[|last| - 1]| <= |last[q]|
      requires forall i :: 0 <= i < |spots| ==> spots[i] < |last[|last| - 1]|
      requires forall i, j :: 0 <= i < j < |spots| ==> spots[i] < spots[j]
      ensures |cols| == |spots| && forall q :: 0 <= q < |spots| ==> cols[q] == Column(last, spots[q])
    {
      var w := |last[|last| - 1]|;
      cols := [];
      ghost var c := 0;
      for i := 0 to w
        invariant 0 <= c <= |spots| && |cols| == c
        invariant forall q :: 0 <= q < c ==> cols[q] == Column(last, spots[q])
        invariant forall q :: 0 <= q < c ==> spots[q] < i
        invariant forall q :: c <= q < |spots| ==> i <= spots[q]
      {
        if i in spots {
          var tLst: seq<real> := [];
          for j := 0 to |last|
            invariant tLst == Column(last[..j], i)
          {
            tLst := tLst + [last[j][i]];
          }
          assert last[..|last|] == last;
          assert spots[c] == i;
          cols := cols + [tLst];
          c := c + 1;
        }
      }
    }

    /** cbv[i] = -(first tableau's z-row entry at spot i). */
    static method CostVector(first: Table, spots: seq<nat>) returns (cbv: seq<real>)
      requires |first| > 0 && forall i :: 0 <= i < |spots| ==> spots[i] < |first[0]|
      ensures cbv == CostsOfBasis(first, spots)
    {
      cbv := [];
      for i := 0 to |spots|
        invariant cbv == CostsOfBasis(first, spots[..i])
      {
        cbv := cbv + [-first[0][spots[i]]];
      }
      assert spots[..|spots|] == spots;
    }

    /** matB[i]: the column at spot i in the first tableau's rows 1 onwards. */
    static method BasisMatrix(first: Table, spots: seq<nat>) returns (matB: Table)
      requires |first| > 0
      requires forall i :: 0 <= i < |spots| ==> forall q :: 0 <= q < |first| ==> spots[i] < |first[q]|
      ensures matB == BasisRows(first, spots)
    {
      matB := [];
      for i := 0 to |spots|
        invariant matB == BasisRows(first, spots[..i])
      {
        var tLst: seq<real> := [];
        for j := 1 to |first|
          invariant tLst == Column(first[1..j], spots[i])
        {
          tLst := tLst + [first[j][spots[i]]];
        }
        assert first[1..|first|] == first[1..];
        matB := matB + [tLst];
      }
      assert spots[..|spots|] == spots;
    }
  }
}

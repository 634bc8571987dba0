/** Model/Simplex.cs: the Big-M model as an object whose array fields the
    constructor, nextStep and calculateSimplexTableau rebuild and reassign;
    the fields are held as values. */
module BigMSimplex {
  import opened Common
  import opened BigMSpec
  import opened SimplexSnaps

  // ---------------------------------------------------------------------
  // The loops getMatrix and Canonize are made of (Simplex.cs:66-251)

  /** Every entry negated (Simplex.cs:69-73, 96-100). */
  method NegateAll(s: seq<real>) returns (r: seq<real>)
    ensures r == Negated(s)
  {
    r := [];
    for i := 0 to |s|
      invariant r == Negated(s[..i])
    {
      r := r + [-s[i]];
      assert s[..i + 1] == s[..i] + [s[i]];
    }
    assert s[..|s|] == s;
  }

  /** Simplex.cs:92-108: every constraint of the caller's array with b < 0
      is replaced, in place, by its normalised form. */
  method NormalizeNegativeRhs(constraints: array<Constraint>)
    modifies constraints
    ensures constraints[..] == NormalizedAll(old(constraints[..]))
  {
    for i := 0 to constraints.Length
      invariant forall k :: 0 <= k < i ==> constraints[k] == Normalized(old(constraints[k]))
      invariant forall k :: i <= k < constraints.Length ==> constraints[k] == old(constraints[k])
    {
      if constraints[i].b < 0.0 {
        var cVars := NegateAll(constraints[i].variables);
        var sign := constraints[i].sign;
        if sign == ">=" {
          sign := "<=";
        } else if sign == "<=" {
          sign := ">=";
        }
        constraints[i] := Constraint(cVars, -constraints[i].b, sign);
      }
    }
  }

  /** Simplex.cs:111-119: the column-major matrix of the first n
      coefficients. */
  method ColumnMajor(cs: seq<Constraint>, n: nat) returns (cols: seq<seq<real>>)
    requires Wide(cs, n)
    ensures cols == Columns(cs, n)
  {
    cols := [];
    for i := 0 to n
      invariant |cols| == i && forall k :: 0 <= k < i ==> cols[k] == Columns(cs, n)[k]
    {
      var column := [];
      for j := 0 to |cs|
        invariant |column| == j && forall q :: 0 <= q < j ==> column[q] == cs[q].variables[i]
      {
        column := column + [cs[j].variables[i]];
      }
      cols := cols + [column];
    }
  }

  /** getColumn (Simplex.cs:243-251). */
  method GetColumn(value: real, place: nat, length: nat) returns (column: seq<real>)
    ensures column == UnitColumn(value, place, length)
  {
    column := [];
    for k := 0 to length
      invariant |column| == k && forall q :: 0 <= q < k ==> column[q] == if q == place then value else 0.0
    {
      column := column + [if k == place then value else 0.0];
    }
  }

  /** appendColumn (Simplex.cs:221-230). */
  method AppendColumn(matrix: seq<seq<real>>, column: seq<real>) returns (r: seq<seq<real>>)
    ensures r == matrix + [column]
  {
    r := [];
    for i := 0 to |matrix|
      invariant r == matrix[..i]
    {
      r := r + [matrix[i]];
      assert matrix[..i + 1] == matrix[..i] + [matrix[i]];
    }
    assert matrix[..|matrix|] == matrix;
    r := r + [column];
  }

  /** append (Simplex.cs:232-241). */
  method Append<T>(a: seq<T>, element: T) returns (r: seq<T>)
    ensures r == a + [element]
  {
    r := [];
    for i := 0 to |a|
      invariant r == a[..i]
    {
      r := r + [a[i]];
      assert a[..i + 1] == a[..i] + [a[i]];
    }
    assert a[..|a|] == a;
    r := r + [element];
  }

  /** Simplex.cs:121-138: the slack columns and the right-hand sides. */
  method SlackAppendix(cs: seq<Constraint>) returns (appendix: seq<seq<real>>, bs: seq<real>)
    ensures appendix == SlackColumns(cs, |cs|) && bs == Rhs(cs)
  {
    appendix := [];
    bs := [];
    for i := 0 to |cs|
      invariant appendix == SlackColumns(cs, i) && bs == Rhs(cs[..i])
    {
      var current := cs[i];
      bs := bs + [current.b];
      if current.sign == ">=" {
        var column := GetColumn(-1.0, i, |cs|);
        appendix := AppendColumn(appendix, column);
      } else if current.sign == "<=" {
        var column := GetColumn(1.0, i, |cs|);
        appendix := AppendColumn(appendix, column);
      }
      assert Rhs(cs[..i + 1]) == Rhs(cs[..i]) + [cs[i].b];
    }
    assert cs[..|cs|] == cs;
  }

  /** Simplex.cs:141-149: the original columns followed by the slack columns. */
  method CombineColumns(matrix: seq<seq<real>>, appendix: seq<seq<real>>) returns (r: seq<seq<real>>)
    ensures r == matrix + appendix
  {
    r := [];
    for i := 0 to |matrix|
      invariant r == matrix[..i]
    {
      r := r + [matrix[i]];
      assert matrix[..i + 1] == matrix[..i] + [matrix[i]];
    }
    for i := |matrix| to |matrix| + |appendix|
      invariant r == matrix + appendix[..i - |matrix|]
    {
      r := r + [appendix[i - |matrix|]];
      assert appendix[..i + 1 - |matrix|] == appendix[..i - |matrix|] + [appendix[i - |matrix|]];
    }
    assert appendix[..|appendix|] == appendix;
  }

  /** Simplex.cs:159-183: whether the column is a unit vector (exactly one
      1, every other entry 0), and the row of its 1. */
  method FindUnit(column: seq<real>) returns (isUnit: bool, row: nat)
    ensures isUnit <==> IsUnit(column)
    ensures isUnit ==> UnitAt(column, row)
  {
    var hasOnlyNulls, hasOne := true, false;
    row := 0;
    var j := 0;
    while j < |column| && hasOnlyNulls
      invariant 0 <= j <= |column|
      invariant hasOnlyNulls ==> forall q :: 0 <= q < j && (!hasOne || q != row) ==> column[q] == 0.0
      invariant hasOnlyNulls && hasOne ==> row < j && column[row] == 1.0
      invariant !hasOnlyNulls ==> !IsUnit(column)
      decreases |column| - j
    {
      if column[j] == 1.0 {
        if hasOne {
          hasOnlyNulls := false;
          forall r | 0 <= r < |column| ensures !UnitAt(column, r) {
            assert column[row] == 1.0 && column[j] == 1.0;
          }
        } else {
          hasOne := true;
          row := j;
        }
      } else if column[j] != 0.0 {
        hasOnlyNulls := false;
        forall r | 0 <= r < |column| ensures !UnitAt(column, r) {
          assert column[j] != 0.0 && column[j] != 1.0;
        }
      }
      j := j + 1;
    }
    isUnit := hasOnlyNulls && hasOne;
    if hasOnlyNulls && !hasOne {
      forall r | 0 <= r < |column| ensures !UnitAt(column, r) {
        assert column[r] == 0.0;
      }
    }
    if isUnit {
      assert UnitAt(column, row);
    }
  }

  /** Simplex.cs:152-191 with the basis entry of each unit column written at
      the row of its 1: the rows that have a unit column, and for each the
      last such column. */
  method ScanBasis(cols: seq<seq<real>>, rows: nat) returns (hasBasicVar: seq<bool>, C: seq<nat>)
    requires Rectangular(cols, rows)
    ensures |hasBasicVar| == |C| == rows
    ensures forall r :: 0 <= r < rows ==> hasBasicVar[r] == Scanned(cols, r, |cols|).Some?
    ensures forall r :: 0 <= r < rows ==> C[r] == match Scanned(cols, r, |cols|) case Some(k) => k case None => 0
  {
    hasBasicVar := seq(rows, _ => false);
    C := seq(rows, _ => 0);
    for i := 0 to |cols|
      invariant |hasBasicVar| == |C| == rows
      invariant forall r :: 0 <= r < rows ==> hasBasicVar[r] == Scanned(cols, r, i).Some?
      invariant forall r :: 0 <= r < rows ==> C[r] == match Scanned(cols, r, i) case Some(k) => k case None => 0
    {
      var isUnit, row := FindUnit(cols[i]);
      if isUnit {
        hasBasicVar := hasBasicVar[row := true];
        C := C[row := i];
        forall r | 0 <= r < rows && r != row ensures !UnitAt(cols[i], r) {
          assert cols[i][row] == 1.0;
        }
      } else {
        forall r | 0 <= r < rows ensures !UnitAt(cols[i], r) {
          assert !(0 <= r < |cols[i]| && UnitAt(cols[i], r));
        }
      }
    }
  }

  /** Simplex.cs:193-214: one artificial unit column per row without a
      basic variable, flagged in m and made that row's basic column. */
  method AddArtificials(cols: seq<seq<real>>, rows: nat, hasBasicVar: seq<bool>, C0: seq<nat>)
    returns (full: seq<seq<real>>, flags: seq<bool>, C: seq<nat>)
    requires Rectangular(cols, rows) && |hasBasicVar| == |C0| == rows
    requires forall r :: 0 <= r < rows ==> hasBasicVar[r] == Scanned(cols, r, |cols|).Some?
    requires forall r :: 0 <= r < rows ==> C0[r] == match Scanned(cols, r, |cols|) case Some(k) => k case None => 0
    ensures full == FullMatrix(cols, rows) && flags == Flags(cols, rows) && C == RowBasis(cols, rows)
  {
    full, C := cols, C0;
    flags := [];
    for i := 0 to |cols|
      invariant flags == seq(i, _ => false)
    {
      flags := flags + [false];
    }
    for i := 0 to rows
      invariant full == cols + Artificials(Uncovered(cols, i), rows)
      invariant flags == seq(|cols|, _ => false) + seq(|Uncovered(cols, i)|, _ => true)
      invariant |C| == rows
      invariant forall r :: 0 <= r < i ==> C[r] == RowBasis(cols, rows)[r]
      invariant forall r :: i <= r < rows ==> C[r] == C0[r]
    {
      if !hasBasicVar[i] {
        var basicColumn := GetColumn(1.0, i, rows);
        ghost var u := Uncovered(cols, i);
        assert Uncovered(cols, i + 1) == u + [i];
        assert Artificials(u + [i], rows) == Artificials(u, rows) + [basicColumn];
        full := AppendColumn(full, basicColumn);
        flags := Append(flags, true);
        C := C[i := |full| - 1];
      }
    }
    assert flags == Flags(cols, rows);
  }

  class Simplex {
    /** The field function: the objective, as a maximisation. */
    var objective: Function
    var functionVariables: seq<real>
    /** Column-major: matrix[column][row]. */
    var matrix: seq<seq<real>>
    var b: seq<real>
    /** The artificial-variable flags. */
    var m: seq<bool>
    var M: seq<real>
    var F: seq<real>
    /** The basis: C[row] is the basic column of row. */
    var C: seq<nat>
    var isMDone: bool

    function Contents(): State
      reads this
    {
      State(functionVariables, matrix, b, m, M, F, C, isMDone)
    }

    ghost predicate Valid()
      reads this
    {
      Good(Contents())
    }

    /** Keeps a max objective, canonizes a min one, builds the standard
        form, the objective array and M, then sets F to the negated
        objective coefficients (Simplex.cs:22-44); the constraints are
        normalised in the caller's array. */
    constructor (f: Function, constraints: array<Constraint>)
      requires Buildable(constraints[..])
      modifies constraints
      ensures objective == MaxForm(f)
      ensures constraints[..] == NormalizedAll(old(constraints[..]))
      ensures Contents() == InitialState(f, old(constraints[..])) && Valid()
    {
      if f.isExtrMax {
        objective := f;
      } else {
        var g := Canonize(f);
        objective := g;
      }
      functionVariables, matrix, b, m, M, F, C, isMDone := [], [], [], [], [], [], [], false;
      new;
      ghost var cs := constraints[..];
      InitialParts(f, cs);
      GetMatrix(constraints);
      GetFunctionArray();
      GetMandF();
      // F[i] = -functionVariables[i] for every column
      F := NegateAll(functionVariables);
      InitialGood(f, cs);
    }

    /** Canonize (Simplex.cs:67-75). */
    static method Canonize(f: Function) returns (r: Function)
      ensures r == Canonized(f)
    {
      var newFuncVars := NegateAll(f.variables);
      r := Function(newFuncVars, -f.c, true);
    }

    /** getFunctionArray (Simplex.cs:78-86). */
    method GetFunctionArray()
      modifies this`functionVariables
      ensures Contents() == old(Contents()).(fv := FunctionArray(objective, |matrix|)) && objective == old(objective)
    {
      var funcVars := [];
      for i := 0 to |matrix|
        invariant |funcVars| == i && forall k :: 0 <= k < i ==> funcVars[k] == FunctionArray(objective, |matrix|)[k]
      {
        funcVars := funcVars + [if i < |objective.variables| then objective.variables[i] else 0.0];
      }
      functionVariables := funcVars;
    }

    /** getMatrix (Simplex.cs:89-218), with each unit column recorded as the
        basic column of the row of its 1. */
    method GetMatrix(constraints: array<Constraint>)
      requires Buildable(constraints[..])
      modifies this`matrix, this`m, this`C, this`b, constraints
      ensures constraints[..] == NormalizedAll(old(constraints[..]))
      ensures var cols, n := InitialColumns(old(constraints[..])), constraints.Length;
        Contents() == old(Contents()).(matrix := FullMatrix(cols, n), m := Flags(cols, n), C := RowBasis(cols, n), b := Rhs(constraints[..]))
      ensures objective == old(objective)
    {
      ghost var cs0 := constraints[..];
      NormalizeNegativeRhs(constraints);
      var cs := constraints[..];
      NormalizedWide(cs0);
      var n := |cs[0].variables|;
      var columns := ColumnMajor(cs, n);
      var appendix, bs := SlackAppendix(cs);
      var newMatrix := CombineColumns(columns, appendix);
      var hasBasicVar, basis := ScanBasis(newMatrix, |cs|);
      var full, flags, basis2 := AddArtificials(newMatrix, |cs|, hasBasicVar, basis);
      b := bs;
      matrix := full;
      m := flags;
      C := basis2;
    }

    /** getMandF (Simplex.cs:253-277). */
    method GetMandF()
      requires PricingShape(matrix, functionVariables, m, C)
      modifies this`M, this`F
      ensures Contents() == old(Contents().(M := MRow(matrix, functionVariables, m, C), F := FRow(matrix, functionVariables, m, C)))
      ensures objective == old(objective)
    {
      var newM, newF := [], [];
      for i := 0 to |matrix|
        invariant |newM| == |newF| == i
        invariant forall k :: 0 <= k < i ==> newM[k] == MRow(matrix, functionVariables, m, C)[k]
        invariant forall k :: 0 <= k < i ==> newF[k] == FRow(matrix, functionVariables, m, C)[k]
      {
        var sumF, sumM := 0.0, 0.0;
        for j := 0 to |matrix[0]|
          invariant sumM == SumM(matrix[i], m, C, j) && sumF == SumF(matrix[i], functionVariables, m, C, j)
        {
          if m[C[j]] {
            sumM := sumM - matrix[i][j];
          } else {
            sumF := sumF + functionVariables[C[j]] * matrix[i][j];
          }
        }
        newM := newM + [if m[i] then sumM + 1.0 else sumM];
        newF := newF + [sumF - functionVariables[i]];
      }
      M, F := newM, newF;
    }

    /** getIndexOfNegativeElementWithMaxAbsoluteValue (Simplex.cs:323-344). */
    method IndexOfMostNegative(a: seq<real>) returns (index: int)
      requires |a| == |m|
      ensures index == -1 <==> NoneAdmissible(a, m, isMDone)
      ensures index != -1 ==> MostNegative(a, m, isMDone, index)
    {
      index := -1;
      for i := 0 to |a|
        invariant index == -1 ==> forall k :: 0 <= k < i ==> !Admissible(a, m, isMDone, k)
        invariant index != -1 ==> 0 <= index < i && Admissible(a, m, isMDone, index)
        invariant index != -1 ==> forall k :: 0 <= k < i && Admissible(a, m, isMDone, k) ==> Abs(a[k]) <= Abs(a[index])
        invariant index != -1 ==> forall k :: 0 <= k < index && Admissible(a, m, isMDone, k) ==> Abs(a[k]) < Abs(a[index])
      {
        if a[i] < 0.0 {
          if !isMDone || (isMDone && !m[i]) {
            if index == -1 {
              index := i;
            } else if Abs(a[i]) > Abs(a[index]) {
              index := i;
            }
          }
        }
      }
    }

    /** getIndexOfMinimalRatio (Simplex.cs:347-365), with rows of b = 0
        taking part. */
    static method IndexOfMinimalRatio(column: seq<real>, b: seq<real>) returns (index: int)
      requires |column| <= |b|
      ensures index == -1 <==> NoRatio(column, b)
      ensures index != -1 ==> MinRatioFeasible(column, b, index)
    {
      index := -1;
      for i := 0 to |column|
        invariant index == -1 ==> forall k :: 0 <= k < i ==> !FeasibleEligible(column, b, k)
        invariant index != -1 ==> 0 <= index < i && FeasibleEligible(column, b, index)
        invariant index != -1 ==> forall k :: 0 <= k < i && FeasibleEligible(column, b, k) ==> b[index] / column[index] <= b[k] / column[k]
        invariant index != -1 ==> forall k :: 0 <= k < index && FeasibleEligible(column, b, k) ==> b[index] / column[index] < b[k] / column[k]
      {
        if column[i] > 0.0 && b[i] >= 0.0 {
          if index == -1 {
            index := i;
          } else if b[i] / column[i] < b[index] / column[index] {
            index := i;
          }
        }
      }
    }

    /** nextStep (Simplex.cs:280-320): settles the phase flag, then answers
        a pivot position, Found or Unbounded. */
    method NextStep() returns (r: IndexResult)
      requires Shaped(Contents())
      modifies this`isMDone
      ensures Contents() == old(Contents()).(isMDone := PhaseDone(old(Contents()))) && objective == old(objective)
      ensures r.result == NotYetFound <==> r.index.Some?
      ensures r.index.Some? ==> PivotChoice(old(Contents()), r.index.value.0, r.index.value.1)
      ensures r.result == Found <==> FoundAt(old(Contents()))
      ensures r.result == Unbounded <==> UnboundedAt(old(Contents()))
    {
      ghost var s := Contents();
      var columnM := IndexOfMostNegative(M);
      if isMDone || columnM == -1 {
        isMDone := true;
        var columnF := IndexOfMostNegative(F);
        if columnF != -1 {
          var row := IndexOfMinimalRatio(matrix[columnF], b);
          if row != -1 {
            r := IndexResult(Some((columnF, row)), NotYetFound);
            ChoiceExcludesEnds(s, columnF, row);
          } else {
            r := IndexResult(None, Unbounded);
          }
        } else {
          r := IndexResult(None, Found);
          FoundExcludesUnbounded(s);
        }
      } else {
        var row := IndexOfMinimalRatio(matrix[columnM], b);
        if row != -1 {
          r := IndexResult(Some((columnM, row)), NotYetFound);
          ChoiceExcludesEnds(s, columnM, row);
        } else {
          r := IndexResult(None, Unbounded);
        }
      }
    }

    /** calculateSimplexTableau (Simplex.cs:368-414): the pivot on (col, row). */
    method CalculateSimplexTableau(col: nat, row: nat)
      requires Shaped(Contents()) && col < |matrix| && row < |b| && matrix[col][row] != 0.0
      modifies this`matrix, this`b, this`M, this`F, this`C
      ensures Contents() == Pivoted(old(Contents()), col, row) && objective == old(objective)
    {
      C := C[row := col];
      var newJRow := PivotRowEntries(matrix, col, row);
      var newB := PivotRhs(matrix, b, col, row);
      b := newB;
      var newMatrix := PivotColumns(matrix, newJRow, |C|, col, row);
      matrix := newMatrix;
      GetMandF();
    }

    /** GetResult (Simplex.cs:47-64): snapshots of the initial state and of
        the state after each pivot, at most 100 pivots, and the last answer
        of nextStep. */
    method GetResult() returns (snaps: seq<SimplexSnap>, result: SimplexResult, ghost states: seq<State>)
      requires Valid()
      modifies this
      ensures 1 <= |snaps| == |states| <= 101 && states[0] == old(Contents()) && Run(states)
      ensures Recorded(snaps, states)
      ensures Contents() == states[|states| - 1].(isMDone := PhaseDone(states[|states| - 1])) && Valid()
      ensures result == NotYetFound ==> |snaps| == 101
      ensures result == Found <==> FoundAt(states[|states| - 1])
      ensures result == Unbounded <==> UnboundedAt(states[|states| - 1])
      ensures objective == old(objective)
    {
      ghost var s0 := Contents();
      var r;
      snaps, states, r := Start();
      var iterations := 0;
      while r.result == NotYetFound && iterations < 100
        invariant 0 <= iterations <= 100 && |snaps| == |states| == iterations + 1
        invariant Tracks(s0, states, r) && objective == old(objective)
        invariant this !in Footprint(snaps) && Recorded(snaps, states)
        decreases 100 - iterations
      {
        snaps, states, r := Round(s0, snaps, states, r);
        iterations := iterations + 1;
      }
      result := r.result;
      ghost var last := states[|states| - 1];
      GoodAnyPhase(last, PhaseDone(last));
    }

    /** The snapshot of the initial state and nextStep's first answer. */
    method Start() returns (snaps: seq<SimplexSnap>, ghost states: seq<State>, r: IndexResult)
      requires Valid()
      modifies this
      ensures Tracks(old(Contents()), states, r) && objective == old(objective) && |states| == 1
      ensures Recorded(snaps, states) && this !in Footprint(snaps)
    {
      states := [Contents()];
      var snap := Snapshot();
      snaps := [snap];
      r := NextStep();
      assert Recorded(snaps, states);
    }

    /** After the states of a run from s0: the object holds the last state
        with its phase flag settled, and r is nextStep's answer for it. */
    ghost predicate Tracks(s0: State, states: seq<State>, r: IndexResult)
      reads this
    {
      && |states| > 0 && states[0] == s0 && Run(states)
      && var last := states[|states| - 1];
      && Good(last) && Contents() == last.(isMDone := PhaseDone(last))
      && (r.result == NotYetFound <==> r.index.Some?)
      && (r.index.Some? ==> PivotChoice(last, r.index.value.0, r.index.value.1))
      && (r.result == Found <==> FoundAt(last))
      && (r.result == Unbounded <==> UnboundedAt(last))
    }

    /** One round of GetResult's loop: the pivot on nextStep's choice, the
        snapshot of the new state, and nextStep's answer for it. */
    method Round(ghost s0: State, snaps: seq<SimplexSnap>, ghost states: seq<State>, r: IndexResult)
      returns (snaps': seq<SimplexSnap>, ghost states': seq<State>, r': IndexResult)
      requires Tracks(s0, states, r) && r.index.Some?
      requires Recorded(snaps, states) && this !in Footprint(snaps)
      modifies this
      ensures Tracks(s0, states', r') && objective == old(objective) && |states'| == |states| + 1
      ensures Recorded(snaps', states') && this !in Footprint(snaps')
    {
      snaps', states' := PivotAndRecord(snaps, states, r.index.value.0, r.index.value.1);
      r' := NextStep();
      assert Recorded(snaps', states');
    }

    /** The pivot of one round of GetResult's loop, on nextStep's choice
        for the last state, and the snapshot of the new state. */
    method PivotAndRecord(snaps: seq<SimplexSnap>, ghost states: seq<State>, col: nat, row: nat)
      returns (snaps': seq<SimplexSnap>, ghost states': seq<State>)
      requires |states| > 0 && Run(states) && Good(states[|states| - 1]) && PivotChoice(states[|states| - 1], col, row)
      requires Contents() == states[|states| - 1].(isMDone := PhaseDone(states[|states| - 1]))
      requires Recorded(snaps, states) && this !in Footprint(snaps)
      modifies this`matrix, this`b, this`M, this`F, this`C
      ensures states' == states + [Contents()] && Run(states') && Good(Contents())
      ensures Recorded(snaps', states') && this !in Footprint(snaps')
    {
      Advance(col, row, states);
      assert Recorded(snaps, states);
      var u := Contents();
      var snap := Snapshot();
      RecordedSnoc(snaps, states, snap, u);
      snaps', states' := snaps + [snap], states + [u];
    }

    /** new SimplexSnap(b, matrix, M, F, C, functionVariables, isMDone, m). */
    method Snapshot() returns (snap: SimplexSnap)
      requires Shaped(Contents())
      ensures fresh(snap.Repr) && snap.Records(Contents())
    {
      assert CopyableRows(matrix) && Rectangular(matrix, CopyWidth(matrix));
      snap := new SimplexSnap(b, matrix, M, F, C, functionVariables, isMDone, m);
    }

    /** One pivot of GetResult's loop, on the choice nextStep made for the
        last state of the run so far. */
    method Advance(col: nat, row: nat, ghost states: seq<State>)
      requires |states| > 0 && Run(states) && Good(states[|states| - 1]) && PivotChoice(states[|states| - 1], col, row)
      requires Contents() == states[|states| - 1].(isMDone := PhaseDone(states[|states| - 1]))
      modifies this`matrix, this`b, this`M, this`F, this`C
      ensures Run(states + [Contents()]) && Good(Contents())
    {
      ghost var s := states[|states| - 1];
      assert matrix[col][row] > 0.0;
      CalculateSimplexTableau(col, row);
      assert PivotChoice(s, col, row) && Contents() == Pivoted(s.(isMDone := PhaseDone(s)), col, row);
      StepKeepsGood(s, Contents());
      RunSnoc(states, Contents());
    }
  }

  /** Every object of the snapshots. */
  ghost function Footprint(snaps: seq<SimplexSnap>): set<object> {
    set k, o | 0 <= k < |snaps| && o in snaps[k].Repr :: o
  }

  /** Each snapshot holds the state of the same index. */
  ghost predicate Recorded(snaps: seq<SimplexSnap>, states: seq<State>)
    reads Footprint(snaps)
  {
    |snaps| == |states| && forall k :: 0 <= k < |snaps| ==> snaps[k].Records(states[k])
  }

  lemma RecordedSnoc(snaps: seq<SimplexSnap>, states: seq<State>, snap: SimplexSnap, u: State)
    requires Recorded(snaps, states) && snap.Records(u)
    ensures Recorded(snaps + [snap], states + [u])
    ensures Footprint(snaps + [snap]) == Footprint(snaps) + snap.Repr
  {
    var g := snaps + [snap];
    assert g[|snaps|] == snap;
    forall o | o in Footprint(g) ensures o in Footprint(snaps) + snap.Repr {
      var k :| 0 <= k < |g| && o in g[k].Repr;
      if k < |snaps| {
        assert g[k] == snaps[k];
      }
    }
    forall o | o in Footprint(snaps) ensures o in Footprint(g) {
      var k :| 0 <= k < |snaps| && o in snaps[k].Repr;
      assert g[k] == snaps[k];
    }
    forall k | 0 <= k < |snaps| ensures (snaps + [snap])[k].Records((states + [u])[k]) {
      assert (snaps + [snap])[k] == snaps[k];
    }
  }

  // ---------------------------------------------------------------------
  // The loops of calculateSimplexTableau (Simplex.cs:373-410)

  /** newJRow: every column's pivot-row entry divided by the pivot. */
  method PivotRowEntries(matrix: seq<seq<real>>, col: nat, row: nat) returns (newJRow: seq<real>)
    requires col < |matrix| && row < |matrix[col]| && matrix[col][row] != 0.0
    requires forall i :: 0 <= i < |matrix| ==> row < |matrix[i]|
    ensures |newJRow| == |matrix| && forall i :: 0 <= i < |matrix| ==> newJRow[i] == matrix[i][row] / matrix[col][row]
  {
    newJRow := [];
    for i := 0 to |matrix|
      invariant |newJRow| == i && forall k :: 0 <= k < i ==> newJRow[k] == matrix[k][row] / matrix[col][row]
    {
      newJRow := newJRow + [matrix[i][row] / matrix[col][row]];
    }
  }

  /** newB: the right-hand sides after the pivot. */
  method PivotRhs(matrix: seq<seq<real>>, b: seq<real>, col: nat, row: nat) returns (newB: seq<real>)
    requires Rectangular(matrix, |b|) && col < |matrix| && row < |b| && matrix[col][row] != 0.0
    ensures newB == PivotedB(matrix, b, col, row)
  {
    newB := [];
    for i := 0 to |b|
      invariant |newB| == i && forall k :: 0 <= k < i ==> newB[k] == PivotedB(matrix, b, col, row)[k]
    {
      if i == row {
        newB := newB + [b[i] / matrix[col][row]];
      } else {
        newB := newB + [b[i] - b[row] / matrix[col][row] * matrix[col][i]];
      }
    }
  }

  /** newMatrix: every column after the pivot. */
  method PivotColumns(matrix: seq<seq<real>>, newJRow: seq<real>, rows: nat, col: nat, row: nat) returns (newMatrix: seq<seq<real>>)
    requires Rectangular(matrix, rows) && col < |matrix| && row < rows && matrix[col][row] != 0.0
    requires |newJRow| == |matrix| && forall i :: 0 <= i < |matrix| ==> newJRow[i] == matrix[i][row] / matrix[col][row]
    ensures newMatrix == PivotedMatrix(matrix, rows, col, row)
  {
    newMatrix := [];
    for i := 0 to |matrix|
      invariant |newMatrix| == i && forall k :: 0 <= k < i ==> newMatrix[k] == PivotedMatrix(matrix, rows, col, row)[k]
    {
      var column := [];
      for j := 0 to rows
        invariant |column| == j
        invariant forall q :: 0 <= q < j ==> column[q] == PivotedMatrix(matrix, rows, col, row)[i][q]
      {
        if j == row {
          column := column + [newJRow[i]];
        } else {
          column := column + [matrix[i][j] - newJRow[i] * matrix[col][j]];
        }
      }
      newMatrix := newMatrix + [column];
    }
  }
}

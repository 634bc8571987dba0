/** The value-level description of Algorithms/SimplexTable.cs: the table a
    problem is turned into, the optimality test, the pivot choice and the
    pivot itself, over the contents of a table's arrays. */
module SimplexTableSpec {
  import opened Common

  /** The tolerance of IsOptimal, FindPivotElement and PerformPivotOperation. */
  const Tol: real := 1.0e-10

  /** double.MaxValue, the starting minimum of the ratio test. */
  const MaxDouble: real := 1.7976931348623157e308

  /** The iteration cap of SolveToOptimal. */
  const MaxIterations: nat := 1000

  const NotOptimal: string := "Not Optimal"
  const OptimalFound: string := "Optimal Solution Found"
  const NoSolution: string := "Unbounded or No Solution"
  const Cycling: string := "Maximum iterations reached - possible cycling"

  /** The members of a constraint that the table builder reads. */
  datatype LPConstraint = LPConstraint(coefficients: seq<real>, rhs: real, requiresSlackVariable: bool)

  /** The members of an LP problem that the solver reads; ConstraintCount is
      the number of constraints in the list. */
  datatype LPProblem = LPProblem(
    variableCount: nat, slackVariableCount: nat, constraints: seq<LPConstraint>,
    objectiveCoefficients: seq<real>, objectiveType: string)

  /** ObjectiveType.ToLower() == "max". */
  predicate IsMax(p: LPProblem) {
    ToLower(p.objectiveType) == "max"
  }

  /** The arrays of a table as values: basic variable names, all variable
      names, the constraint coefficients, the RHS and the objective row. */
  datatype Tab = Tab(basic: seq<string>, vars: seq<string>, data: seq<seq<real>>, rhs: seq<real>, obj: seq<real>)

  /** The array lengths a table is built with. */
  predicate Shaped(t: Tab) {
    |t.basic| == |t.data| == |t.rhs| && |t.obj| == |t.vars| && Rectangular(t.data, |t.vars|)
  }

  /** A table as the SimplexTable constructor allocates it: empty names
      (the C# arrays hold null) and zeros. */
  function Blank(m: nat, n: nat): (t: Tab)
    ensures Shaped(t) && |t.data| == m && |t.vars| == n
  {
    Tab(seq(m, _ => ""), seq(n, _ => ""), seq(m, _ => seq(n, _ => 0.0)), seq(m, _ => 0.0), seq(n, _ => 0.0))
  }

  // ---------------------------------------------------------------------
  // The table built from a problem (SimplexTable.cs:36-131)

  /** The value of slackIndex when row i is reached: the constraints before
      it that require a slack variable. */
  function SlackIndex(cs: seq<LPConstraint>, i: nat): (k: nat)
    requires i <= |cs|
    ensures k <= i
  {
    if i == 0 then 0 else SlackIndex(cs, i - 1) + if cs[i - 1].requiresSlackVariable then 1 else 0
  }

  /** x1..xn, then s1..sk. */
  function VariableNames(n: nat, k: nat): (names: seq<string>)
    ensures |names| == n + k
  {
    seq(n, i requires 0 <= i < n => Name("x", i + 1)) + seq(k, i requires 0 <= i < k => Name("s", i + 1))
  }

  /** The basic variable of row i: its slack, or an artificial a{i+1}. */
  function BasicName(cs: seq<LPConstraint>, i: nat): string
    requires i < |cs|
  {
    if cs[i].requiresSlackVariable then Name("s", SlackIndex(cs, i) + 1) else Name("a", i + 1)
  }

  /** A constraint row: its coefficients padded with zeros to n, then a 1 in
      slack column `slack` when the constraint requires a slack variable. */
  function ConstraintRow(c: LPConstraint, n: nat, k: nat, slack: nat): (row: seq<real>)
    ensures |row| == n + k
  {
    seq(n + k, j requires 0 <= j < n + k =>
      if j < n then (if j < |c.coefficients| then c.coefficients[j] else 0.0)
      else if c.requiresSlackVariable && j - n == slack then 1.0 else 0.0)
  }

  /** -c for "max" and +c otherwise over the decision columns, 0 elsewhere. */
  function ObjectiveOf(p: LPProblem): (obj: seq<real>)
    ensures |obj| == p.variableCount + p.slackVariableCount
  {
    var n, k, c := p.variableCount, p.slackVariableCount, p.objectiveCoefficients;
    seq(n + k, j requires 0 <= j < n + k =>
      if j < n && j < |c| then (if IsMax(p) then -c[j] else c[j]) else 0.0)
  }

  function InitialTab(p: LPProblem): (t: Tab)
    ensures Shaped(t) && |t.data| == |p.constraints| && |t.vars| == p.variableCount + p.slackVariableCount
  {
    var cs, n, k := p.constraints, p.variableCount, p.slackVariableCount;
    Tab(seq(|cs|, i requires 0 <= i < |cs| => BasicName(cs, i)),
        VariableNames(n, k),
        seq(|cs|, i requires 0 <= i < |cs| => ConstraintRow(cs[i], n, k, SlackIndex(cs, i))),
        seq(|cs|, i requires 0 <= i < |cs| => cs[i].rhs),
        ObjectiveOf(p))
  }

  lemma InitialTabRows(p: LPProblem)
    ensures var t, cs := InitialTab(p), p.constraints;
      forall q :: 0 <= q < |cs| ==> (t.basic[q] == BasicName(cs, q) && t.rhs[q] == cs[q].rhs
        && t.data[q] == ConstraintRow(cs[q], p.variableCount, p.slackVariableCount, SlackIndex(cs, q)))
  {
  }

  /** Row by row, the basic names and the RHS of the built table. */
  lemma FilledRowsAreInitial(p: LPProblem, basic: seq<string>, rhs: seq<real>)
    requires |basic| == |rhs| == |p.constraints|
    requires forall q :: 0 <= q < |p.constraints| ==> basic[q] == BasicName(p.constraints, q) && rhs[q] == p.constraints[q].rhs
    ensures basic == InitialTab(p).basic && rhs == InitialTab(p).rhs
  {
  }

  /** A later slack row has a larger slack index. */
  lemma {:induction false} SlackIndexIncreases(cs: seq<LPConstraint>, i: nat, q: nat)
    requires i < q <= |cs| && cs[i].requiresSlackVariable
    ensures SlackIndex(cs, i) < SlackIndex(cs, q)
  {
    if q > i + 1 {
      SlackIndexIncreases(cs, i, q - 1);
    }
  }

  /** Distinct slack rows get distinct slack indices. */
  lemma SlackIndexDistinct(cs: seq<LPConstraint>, i: nat, q: nat)
    requires i < |cs| && q < |cs| && i != q && cs[i].requiresSlackVariable && cs[q].requiresSlackVariable
    ensures SlackIndex(cs, i) != SlackIndex(cs, q)
  {
    if i < q { SlackIndexIncreases(cs, i, q); } else { SlackIndexIncreases(cs, q, i); }
  }

  /** Column j of t is 1 at row r and 0 in every other row and in the objective row. */
  predicate UnitColumnAt(t: Tab, j: nat, r: nat)
    requires Shaped(t)
  {
    && r < |t.data| && j < |t.vars|
    && t.data[r][j] == 1.0 && t.obj[j] == 0.0
    && forall i :: 0 <= i < |t.data| && i != r ==> t.data[i][j] == 0.0
  }

  /** In the built table a slack row's basic variable is s{k+1}, which names
      column n+k, and that column is 1 in this row and 0 everywhere else. */
  lemma InitialSlackColumn(p: LPProblem, i: nat)
    requires i < |p.constraints| && p.constraints[i].requiresSlackVariable
    requires SlackIndex(p.constraints, i) < p.slackVariableCount
    ensures var t, s := InitialTab(p), p.variableCount + SlackIndex(p.constraints, i);
      UnitColumnAt(t, s, i) && t.basic[i] == t.vars[s]
  {
    var cs, t, s := p.constraints, InitialTab(p), SlackIndex(p.constraints, i);
    forall q | 0 <= q < |cs| && q != i ensures t.data[q][p.variableCount + s] == 0.0 {
      if cs[q].requiresSlackVariable {
        SlackIndexDistinct(cs, i, q);
      }
    }
  }

  /** Column j is named x{j+1} among the decision variables and s{j-n+1}
      among the slacks. */
  lemma VariableNameAt(n: nat, k: nat, j: nat)
    requires j < n + k
    ensures j < n ==> VariableNames(n, k)[j] == Name("x", j + 1)
    ensures j >= n ==> VariableNames(n, k)[j] == Name("s", j - n + 1)
  {
    var xs := seq(n, i requires 0 <= i < n => Name("x", i + 1));
    var ss := seq(k, i requires 0 <= i < k => Name("s", i + 1));
    assert VariableNames(n, k) == xs + ss;
    if j < n {
      assert (xs + ss)[j] == xs[j];
    } else {
      assert (xs + ss)[j] == ss[j - n];
    }
  }

  /** Two decision names, two slack names, or one of each: the names of
      different columns a < b differ. */
  lemma OrderedNamesDiffer(n: nat, k: nat, a: nat, b: nat)
    requires a < b < n + k
    ensures VariableNames(n, k)[a] != VariableNames(n, k)[b]
  {
    VariableNameAt(n, k, a);
    VariableNameAt(n, k, b);
    if b < n {
      NameDistinct("x", a + 1, b + 1);
    } else if a >= n {
      NameDistinct("s", a - n + 1, b - n + 1);
    } else {
      NamePrefixesDiffer("x", "s", a + 1, b - n + 1);
    }
  }

  /** The decision names and the slack names are all different. */
  lemma VariableNamesDistinct(n: nat, k: nat, a: nat, b: nat)
    requires a < n + k && b < n + k && a != b
    ensures VariableNames(n, k)[a] != VariableNames(n, k)[b]
  {
    if a < b {
      OrderedNamesDiffer(n, k, a, b);
    } else {
      OrderedNamesDiffer(n, k, b, a);
    }
  }

  /** Different rows have different basic names. */
  lemma BasicNamesDistinct(cs: seq<LPConstraint>, i: nat, q: nat)
    requires i < |cs| && q < |cs| && i != q
    ensures BasicName(cs, i) != BasicName(cs, q)
  {
    if cs[i].requiresSlackVariable && cs[q].requiresSlackVariable {
      SlackIndexDistinct(cs, i, q);
      NameDistinct("s", SlackIndex(cs, i) + 1, SlackIndex(cs, q) + 1);
    } else if !cs[i].requiresSlackVariable && !cs[q].requiresSlackVariable {
      NameDistinct("a", i + 1, q + 1);
    } else if cs[i].requiresSlackVariable {
      NamePrefixesDiffer("s", "a", SlackIndex(cs, i) + 1, q + 1);
    } else {
      NamePrefixesDiffer("a", "s", i + 1, SlackIndex(cs, q) + 1);
    }
  }

  /** No two rows of the built table have the same basic variable. */
  lemma InitialBasicDistinct(p: LPProblem, i: nat, q: nat)
    requires i < |p.constraints| && q < |p.constraints| && i != q
    ensures InitialTab(p).basic[i] != InitialTab(p).basic[q]
  {
    BasicNamesDistinct(p.constraints, i, q);
  }

  // ---------------------------------------------------------------------
  // Optimality and the pivot choice (SimplexTable.cs:228-300)

  /** Every objective entry is >= -Tol (max) or <= Tol (min). */
  predicate Optimal(obj: seq<real>, isMax: bool) {
    if isMax then forall j :: 0 <= j < |obj| ==> obj[j] >= -Tol
    else forall j :: 0 <= j < |obj| ==> obj[j] <= Tol
  }

  /** The built table is optimal exactly when no objective coefficient
      exceeds Tol, for max and min alike. */
  lemma InitialOptimalIff(p: LPProblem)
    ensures Optimal(InitialTab(p).obj, IsMax(p)) <==>
      forall j :: 0 <= j < p.variableCount && j < |p.objectiveCoefficients| ==> p.objectiveCoefficients[j] <= Tol
  {
    var obj, c := InitialTab(p).obj, p.objectiveCoefficients;
    if forall j :: 0 <= j < p.variableCount && j < |c| ==> c[j] <= Tol {
      assert Optimal(obj, IsMax(p));
    } else {
      var j :| 0 <= j < p.variableCount && j < |c| && c[j] > Tol;
      assert obj[j] == if IsMax(p) then -c[j] else c[j];
    }
  }

  /** c is the entering column: the first most negative entry below -Tol
      (max), or the first most positive entry above Tol (min). */
  predicate EnteringColumn(obj: seq<real>, isMax: bool, c: int) {
    && 0 <= c < |obj|
    && if isMax then
         && obj[c] < -Tol
         && (forall k :: 0 <= k < |obj| ==> obj[c] <= obj[k])
         && (forall k :: 0 <= k < c ==> obj[c] < obj[k])
       else
         && obj[c] > Tol
         && (forall k :: 0 <= k < |obj| ==> obj[k] <= obj[c])
         && (forall k :: 0 <= k < c ==> obj[k] < obj[c])
  }

  /** There is an entering column exactly when the objective row is not optimal. */
  lemma EnteringUnlessOptimal(obj: seq<real>, isMax: bool, c: int)
    requires EnteringColumn(obj, isMax, c)
    ensures !Optimal(obj, isMax)
  {
    assert obj[c] < -Tol || obj[c] > Tol;
  }

  /** The entering rule picks one column. */
  lemma EnteringColumnUnique(obj: seq<real>, isMax: bool, c1: int, c2: int)
    requires EnteringColumn(obj, isMax, c1) && EnteringColumn(obj, isMax, c2)
    ensures c1 == c2
  {
    assert obj[c1] == obj[c2];
  }

  function Ratio(t: Tab, i: nat, c: nat): real
    requires Shaped(t) && i < |t.data| && c < |t.vars| && t.data[i][c] != 0.0
  {
    t.rhs[i] / t.data[i][c]
  }

  /** Row i takes part in the ratio test on column c: its entry is above Tol
      and its ratio is non-negative and below double.MaxValue. */
  predicate Eligible(t: Tab, c: nat, i: nat)
    requires Shaped(t) && i < |t.data| && c < |t.vars|
  {
    t.data[i][c] > Tol && 0.0 <= Ratio(t, i, c) < MaxDouble
  }

  /** r is the leaving row: the first eligible row with the smallest ratio. */
  predicate LeavingRow(t: Tab, c: nat, r: int)
    requires Shaped(t) && c < |t.vars|
  {
    && 0 <= r < |t.data| && Eligible(t, c, r)
    && (forall i :: 0 <= i < |t.data| && Eligible(t, c, i) ==> Ratio(t, r, c) <= Ratio(t, i, c))
    && (forall i :: 0 <= i < r && Eligible(t, c, i) ==> Ratio(t, r, c) < Ratio(t, i, c))
  }

  predicate NoLeavingRow(t: Tab, c: nat)
    requires Shaped(t) && c < |t.vars|
  {
    forall i :: 0 <= i < |t.data| ==> !Eligible(t, c, i)
  }

  /** The ratio test picks one row. */
  lemma LeavingRowUnique(t: Tab, c: nat, r1: int, r2: int)
    requires Shaped(t) && c < |t.vars| && LeavingRow(t, c, r1) && LeavingRow(t, c, r2)
    ensures r1 == r2
  {
    assert Ratio(t, r1, c) == Ratio(t, r2, c);
  }

  /** (r, c) is the pivot FindPivotElement returns for t. */
  predicate PivotChoice(t: Tab, isMax: bool, r: int, c: int)
    requires Shaped(t)
  {
    EnteringColumn(t.obj, isMax, c) && LeavingRow(t, c, r)
  }

  /** Some column enters but no row can leave. */
  ghost predicate Blocked(t: Tab, isMax: bool)
    requires Shaped(t)
  {
    exists c :: 0 <= c < |t.vars| && EnteringColumn(t.obj, isMax, c) && NoLeavingRow(t, c)
  }

  /** A pivot choice exists only when the table is neither optimal nor blocked,
      so FindPivotElement gives (-1, -1) exactly in those two cases. */
  lemma PivotChoiceExcludes(t: Tab, isMax: bool, r: int, c: int)
    requires Shaped(t) && PivotChoice(t, isMax, r, c)
    ensures !Optimal(t.obj, isMax) && !Blocked(t, isMax)
  {
    EnteringUnlessOptimal(t.obj, isMax, c);
    forall c2 | 0 <= c2 < |t.vars| && EnteringColumn(t.obj, isMax, c2) ensures !NoLeavingRow(t, c2) {
      EnteringColumnUnique(t.obj, isMax, c, c2);
      assert Eligible(t, c2, r);
    }
  }

  /** The chosen pivot is above Tol: the exception of PerformPivotOperation
      cannot be reached from PerformIteration. */
  lemma PivotChoiceIsSafe(t: Tab, isMax: bool, r: int, c: int)
    requires Shaped(t) && PivotChoice(t, isMax, r, c)
    ensures 0 <= r < |t.data| && 0 <= c < |t.vars| && Abs(t.data[r][c]) >= Tol
  {
  }

  // ---------------------------------------------------------------------
  // The pivot (SimplexTable.cs:329-381)

  /** A row divided entry by entry by p. */
  function DividedBy(row: seq<real>, p: real): (d: seq<real>)
    requires p != 0.0
    ensures |d| == |row| && forall j :: 0 <= j < |row| ==> d[j] == row[j] / p
  {
    seq(|row|, j requires 0 <= j < |row| => row[j] / p)
  }

  /** row minus f times prow, entry by entry. */
  function RowLess(row: seq<real>, f: real, prow: seq<real>): (d: seq<real>)
    requires |prow| >= |row|
    ensures |d| == |row| && forall j :: 0 <= j < |row| ==> d[j] == row[j] - f * prow[j]
  {
    seq(|row|, j requires 0 <= j < |row| => row[j] - f * prow[j])
  }

  /** The constraint rows after the pivot: row r divided by the pivot, every
      other row minus its column-c entry times the new row r. */
  function PivotedData(data: seq<seq<real>>, r: nat, c: nat): (d: seq<seq<real>>)
    requires r < |data| && Rectangular(data, |data[r]|) && c < |data[r]| && data[r][c] != 0.0
    ensures |d| == |data| && Rectangular(d, |data[r]|)
    ensures d[r] == DividedBy(data[r], data[r][c])
    ensures forall i :: 0 <= i < |data| && i != r ==> d[i] == RowLess(data[i], data[i][c], DividedBy(data[r], data[r][c]))
  {
    var prow := DividedBy(data[r], data[r][c]);
    seq(|data|, i requires 0 <= i < |data| => if i == r then prow else RowLess(data[i], data[i][c], prow))
  }

  /** The RHS after the pivot, by the same row operations. */
  function PivotedRhs(data: seq<seq<real>>, rhs: seq<real>, r: nat, c: nat): (e: seq<real>)
    requires r < |data| == |rhs| && Rectangular(data, |data[r]|) && c < |data[r]| && data[r][c] != 0.0
    ensures |e| == |rhs| && e[r] == rhs[r] / data[r][c]
    ensures forall i :: 0 <= i < |rhs| && i != r ==> e[i] == rhs[i] - data[i][c] * (rhs[r] / data[r][c])
  {
    seq(|rhs|, i requires 0 <= i < |rhs| =>
      if i == r then rhs[r] / data[r][c] else rhs[i] - data[i][c] * (rhs[r] / data[r][c]))
  }

  /** The pivot row divided by the pivot. */
  function PivotRow(t: Tab, r: nat, c: nat): (row: seq<real>)
    requires Shaped(t) && r < |t.data| && c < |t.vars| && t.data[r][c] != 0.0
    ensures |row| == |t.vars|
  {
    DividedBy(t.data[r], t.data[r][c])
  }

  /** The table after pivoting on (r, c): the entering variable's name
      replaces row r's basic variable, row r is divided by the pivot and
      every other row and the objective row lose their column-c entry times
      the new row r. */
  function PivotTab(t: Tab, r: nat, c: nat): (u: Tab)
    requires Shaped(t) && r < |t.data| && c < |t.vars| && t.data[r][c] != 0.0
    ensures Shaped(u) && u.vars == t.vars && |u.data| == |t.data|
  {
    Tab(t.basic[r := t.vars[c]], t.vars, PivotedData(t.data, r, c), PivotedRhs(t.data, t.rhs, r, c),
        RowLess(t.obj, t.obj[c], PivotRow(t, r, c)))
  }

  /** After the pivot, column c is 1 at row r and 0 in every other row and
      in the objective row, and row r's basic variable is the entering one. */
  lemma PivotMakesUnitColumn(t: Tab, r: nat, c: nat)
    requires Shaped(t) && r < |t.data| && c < |t.vars| && t.data[r][c] != 0.0
    ensures UnitColumnAt(PivotTab(t, r, c), c, r)
    ensures PivotTab(t, r, c).basic == t.basic[r := t.vars[c]]
  {
    var u, p := PivotTab(t, r, c), t.data[r][c];
    var prow := PivotRow(t, r, c);
    assert prow[c] == 1.0 by {
      assert p / p == 1.0;
    }
    forall i | 0 <= i < |t.data| && i != r ensures u.data[i][c] == 0.0 {
      var g := t.data[i][c];
      assert u.data[i] == RowLess(t.data[i], g, prow);
      assert u.data[i][c] == g - g * prow[c];
      assert g * prow[c] == g;
    }
    var f := t.obj[c];
    assert u.obj == RowLess(t.obj, f, prow);
    assert u.obj[c] == f - f * prow[c];
    assert f * prow[c] == f;
  }

  /** A unit column of another row survives the pivot unchanged. */
  lemma PivotKeepsUnitColumn(t: Tab, r: nat, c: nat, j: nat, q: nat)
    requires Shaped(t) && r < |t.data| && c < |t.vars| && t.data[r][c] != 0.0
    requires UnitColumnAt(t, j, q) && q != r
    ensures UnitColumnAt(PivotTab(t, r, c), j, q)
  {
    var u := PivotTab(t, r, c);
    assert PivotRow(t, r, c)[j] == 0.0;
    forall i | 0 <= i < |t.data| && i != r ensures u.data[i][j] == t.data[i][j] {
      assert u.data[i][j] == t.data[i][j] - t.data[i][c] * 0.0;
    }
    assert u.obj[j] == t.obj[j] - t.obj[c] * 0.0;
  }

  /** Every basic variable names (by its first occurrence among the
      variable names) a unit column at its own row. */
  predicate Canonical(t: Tab)
    requires Shaped(t)
  {
    forall i :: 0 <= i < |t.basic| ==>
      var j := IndexOf(t.vars, t.basic[i]);
      j >= 0 && UnitColumnAt(t, j, i)
  }

  /** In canonical form no two rows share a basic variable. */
  lemma CanonicalBasicDistinct(t: Tab, i: nat, q: nat)
    requires Shaped(t) && Canonical(t) && i < |t.basic| && q < |t.basic| && i != q
    ensures t.basic[i] != t.basic[q]
  {
    var ji, jq := IndexOf(t.vars, t.basic[i]), IndexOf(t.vars, t.basic[q]);
    assert UnitColumnAt(t, ji, i) && UnitColumnAt(t, jq, q);
    assert t.data[i][ji] == 1.0 && t.data[i][jq] == 0.0;
  }

  /** A pivot keeps the table canonical. */
  lemma PivotKeepsCanonical(t: Tab, r: nat, c: nat)
    requires Shaped(t) && r < |t.data| && c < |t.vars| && t.data[r][c] != 0.0
    requires Canonical(t) && IndexOf(t.vars, t.vars[c]) == c
    ensures Canonical(PivotTab(t, r, c))
  {
    var u := PivotTab(t, r, c);
    PivotMakesUnitColumn(t, r, c);
    forall q | 0 <= q < |u.basic| ensures IndexOf(u.vars, u.basic[q]) >= 0 && UnitColumnAt(u, IndexOf(u.vars, u.basic[q]), q) {
      if q != r {
        PivotKeepsUnitColumn(t, r, c, IndexOf(t.vars, t.basic[q]), q);
      }
    }
  }

  /** The built table is canonical when every constraint has its own slack column. */
  lemma InitialCanonical(p: LPProblem)
    requires forall i :: 0 <= i < |p.constraints| ==> p.constraints[i].requiresSlackVariable
    requires SlackIndex(p.constraints, |p.constraints|) <= p.slackVariableCount
    ensures Canonical(InitialTab(p))
  {
    var t, n, k := InitialTab(p), p.variableCount, p.slackVariableCount;
    forall i | 0 <= i < |t.basic| ensures IndexOf(t.vars, t.basic[i]) >= 0 && UnitColumnAt(t, IndexOf(t.vars, t.basic[i]), i) {
      var s := SlackIndex(p.constraints, i);
      SlackIndexIncreases(p.constraints, i, |p.constraints|);
      InitialSlackColumn(p, i);
      forall a | 0 <= a < n + s ensures t.vars[a] != t.basic[i] {
        VariableNamesDistinct(n, k, a, n + s);
      }
      assert IndexOf(t.vars, t.basic[i]) == n + s;
    }
  }

  /** All variable names are different. */
  predicate Distinct(names: seq<string>) {
    forall a, b :: 0 <= a < b < |names| ==> names[a] != names[b]
  }

  lemma DistinctIndexOf(names: seq<string>, c: nat)
    requires Distinct(names) && c < |names|
    ensures IndexOf(names, names[c]) == c
  {
  }

  /** One call of PerformIteration that pivots: u is t pivoted on its pivot choice. */
  ghost predicate Step(t: Tab, isMax: bool, u: Tab) {
    Shaped(t) && exists r: nat, c: nat :: PivotChoice(t, isMax, r, c) && u == PivotTab(t, r, c)
  }

  /** Successive tables of a run. */
  ghost predicate Chain(h: seq<Tab>, isMax: bool) {
    forall i :: 0 < i < |h| ==> Step(h[i - 1], isMax, h[i])
  }

  /** Every table of a run from a canonical table with distinct variable
      names is canonical. */
  lemma {:induction false} ChainCanonical(h: seq<Tab>, isMax: bool)
    requires |h| > 0 && Shaped(h[0]) && Canonical(h[0]) && Distinct(h[0].vars) && Chain(h, isMax)
    ensures forall i :: 0 <= i < |h| ==> Shaped(h[i]) && Canonical(h[i]) && h[i].vars == h[0].vars
  {
    if |h| > 1 {
      var g := h[..|h| - 1];
      assert Chain(g, isMax) by {
        forall i | 0 < i < |g| ensures Step(g[i - 1], isMax, g[i]) {
          assert g[i - 1] == h[i - 1] && g[i] == h[i];
        }
      }
      ChainCanonical(g, isMax);
      var t := h[|h| - 2];
      assert t == g[|g| - 1];
      assert Step(t, isMax, h[|h| - 1]);
      var r: nat, c: nat :| PivotChoice(t, isMax, r, c) && h[|h| - 1] == PivotTab(t, r, c);
      DistinctIndexOf(t.vars, c);
      PivotKeepsCanonical(t, r, c);
      assert forall i :: 0 <= i < |h| - 1 ==> h[i] == g[i];
    }
  }

  /** A run extended by one more step. */
  lemma ChainSnoc(h: seq<Tab>, isMax: bool, u: Tab)
    requires |h| > 0 && Chain(h, isMax) && Step(h[|h| - 1], isMax, u)
    ensures Chain(h + [u], isMax)
  {
    var g := h + [u];
    forall i | 0 < i < |g| ensures Step(g[i - 1], isMax, g[i]) {
      if i < |h| {
        assert g[i - 1] == h[i - 1] && g[i] == h[i];
      }
    }
  }

  /** A history whose run from position k - 1 is a chain keeps its first k
      entries and stays a chain from there when one more step is appended. */
  lemma ChainTailSnoc(h: seq<Tab>, k: nat, isMax: bool, u: Tab)
    requires 0 < k <= |h| && Chain(h[k - 1..], isMax) && Step(h[|h| - 1], isMax, u)
    ensures (h + [u])[..k] == h[..k] && Chain((h + [u])[k - 1..], isMax)
  {
    ChainSnoc(h[k - 1..], isMax, u);
    assert (h + [u])[k - 1..] == h[k - 1..] + [u];
  }

  // ---------------------------------------------------------------------
  // The solution of a table (SimplexTable.cs:177-194)

  /** Every name mapped to 0. */
  function Zeroed(names: seq<string>): (m: map<string, real>)
    ensures m.Keys == set v | v in names
    ensures forall v :: v in m ==> m[v] == 0.0
  {
    map v | v in names :: 0.0
  }

  /** One more name set to 0. */
  lemma ZeroedSnoc(names: seq<string>, v: string)
    ensures Zeroed(names + [v]) == Zeroed(names)[v := 0.0]
  {
    var a, b := Zeroed(names + [v]), Zeroed(names)[v := 0.0];
    assert a.Keys == b.Keys;
  }

  /** m after `m[names[i]] = vals[i]` for i = 0 .. k-1 in turn. */
  function Assigned(m: map<string, real>, names: seq<string>, vals: seq<real>, k: nat): (r: map<string, real>)
    requires k <= |names| && k <= |vals|
    ensures r.Keys == m.Keys + set i | 0 <= i < k :: names[i]
  {
    if k == 0 then m else Assigned(m, names, vals, k - 1)[names[k - 1] := vals[k - 1]]
  }

  /** The dictionary GetSolutionValues builds: every variable 0, then each
      basic variable its RHS, later rows overwriting earlier ones. */
  function SolutionValues(t: Tab): map<string, real>
    requires Shaped(t)
  {
    Assigned(Zeroed(t.vars), t.basic, t.rhs, |t.basic|)
  }

  /** The last assignment to a name decides its value. */
  lemma {:induction false} AssignedLast(m: map<string, real>, names: seq<string>, vals: seq<real>, k: nat, i: nat)
    requires i < k <= |names| && k <= |vals|
    requires forall q :: i < q < k ==> names[q] != names[i]
    ensures Assigned(m, names, vals, k)[names[i]] == vals[i]
  {
    if k - 1 != i {
      AssignedLast(m, names, vals, k - 1, i);
    }
  }

  /** A name never assigned keeps its starting value. */
  lemma {:induction false} AssignedUntouched(m: map<string, real>, names: seq<string>, vals: seq<real>, k: nat, v: string)
    requires k <= |names| && k <= |vals| && v in m
    requires forall q :: 0 <= q < k ==> names[q] != v
    ensures Assigned(m, names, vals, k)[v] == m[v]
  {
    if k > 0 {
      AssignedUntouched(m, names, vals, k - 1, v);
    }
  }

  /** The solution holds every variable and basic name; a basic variable
      gets the RHS of the last row naming it and every other variable 0. */
  lemma SolutionValuesSpec(t: Tab)
    requires Shaped(t)
    ensures forall v :: v in SolutionValues(t) <==> v in t.vars || v in t.basic
    ensures forall i :: 0 <= i < |t.basic| && (forall q :: i < q < |t.basic| ==> t.basic[q] != t.basic[i]) ==>
      SolutionValues(t)[t.basic[i]] == t.rhs[i]
    ensures forall v :: v in t.vars && v !in t.basic ==> SolutionValues(t)[v] == 0.0
  {
    var sol := SolutionValues(t);
    forall v ensures v in sol <==> v in t.vars || v in t.basic {
      if v in t.basic {
        var i :| 0 <= i < |t.basic| && t.basic[i] == v;
        assert v in set q | 0 <= q < |t.basic| :: t.basic[q];
      }
    }
    forall i | 0 <= i < |t.basic| && (forall q :: i < q < |t.basic| ==> t.basic[q] != t.basic[i])
      ensures sol[t.basic[i]] == t.rhs[i]
    {
      AssignedLast(Zeroed(t.vars), t.basic, t.rhs, |t.basic|, i);
    }
    forall v | v in t.vars && v !in t.basic ensures sol[v] == 0.0 {
      AssignedUntouched(Zeroed(t.vars), t.basic, t.rhs, |t.basic|, v);
    }
  }

  /** In canonical form every basic variable's value is its row's RHS. */
  lemma CanonicalSolution(t: Tab)
    requires Shaped(t) && Canonical(t)
    ensures forall i :: 0 <= i < |t.basic| ==> SolutionValues(t)[t.basic[i]] == t.rhs[i]
  {
    SolutionValuesSpec(t);
    forall i, q | 0 <= i < q < |t.basic| ensures t.basic[q] != t.basic[i] {
      CanonicalBasicDistinct(t, i, q);
    }
  }
}

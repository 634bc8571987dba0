/** Algorithms/CanonicalFormBuilder.cs: the canonical form of an LP as rows
    of strings: the objective row "(z) - c1x1 ... = 0", then each constraint
    with its nonzero terms, its slack s{k} or excess e{k} and "= rhs". The
    number formatting of C# string interpolation is the parameter fmt. */
module CanonicalForms {
  import opened Common

  /** (int)x on a double: truncation toward zero. */
  function Truncate(x: real): (n: int)
    ensures n == 0 <==> -1.0 < x < 1.0
  {
    if x >= 0.0 then x.Floor else -((-x).Floor)
  }

  /** A row of the input: coefficients, then the RHS, then the type. */
  predicate WellFormedRow(row: seq<real>) {
    |row| >= 2
  }

  function Coefficients(row: seq<real>): seq<real>
    requires WellFormedRow(row)
  {
    row[..|row| - 2]
  }

  function Rhs(row: seq<real>): real
    requires WellFormedRow(row)
  {
    row[|row| - 2]
  }

  /** Type 0 is "<=" and gets a slack; any other type gets an excess. */
  predicate IsSlackRow(row: seq<real>)
    requires WellFormedRow(row)
  {
    Truncate(row[|row| - 1]) == 0
  }

  // ---------------------------------------------------------------------
  // The objective row (CanonicalFormBuilder.cs:19-32)

  /** "- {coef}x{i+1}" for objective coefficient i. */
  function ObjectiveTerm(fmt: real -> string, coef: real, i: nat): string {
    "- " + fmt(coef) + Name("x", i + 1)
  }

  /** The objective terms for the first k coefficients, negated first for
      a minimisation. */
  function ObjectiveTerms(objective: seq<real>, isMin: bool, fmt: real -> string, k: nat): (terms: seq<string>)
    requires k <= |objective|
    ensures |terms| == k
  {
    if k == 0 then []
    else
      var c := if isMin then -objective[k - 1] else objective[k - 1];
      ObjectiveTerms(objective, isMin, fmt, k - 1) + [ObjectiveTerm(fmt, c, k - 1)]
  }

  function ObjectiveRow(objective: seq<real>, isMin: bool, fmt: real -> string): seq<string> {
    ["(z)"] + ObjectiveTerms(objective, isMin, fmt, |objective|) + ["= 0"]
  }

  /** The objective row is "(z)", one term per coefficient in order (the
      coefficient negated for a minimisation), then "= 0". */
  lemma ObjectiveRowShape(objective: seq<real>, isMin: bool, fmt: real -> string)
    ensures var r := ObjectiveRow(objective, isMin, fmt);
      && |r| == |objective| + 2 && r[0] == "(z)" && r[|r| - 1] == "= 0"
      && forall i :: 0 <= i < |objective| ==>
           r[i + 1] == ObjectiveTerm(fmt, if isMin then -objective[i] else objective[i], i)
  {
    forall i | 0 <= i < |objective|
      ensures ObjectiveTerms(objective, isMin, fmt, |objective|)[i]
        == ObjectiveTerm(fmt, if isMin then -objective[i] else objective[i], i)
    {
      ObjectiveTermAt(objective, isMin, fmt, |objective|, i);
    }
  }

  lemma {:induction false} ObjectiveTermAt(objective: seq<real>, isMin: bool, fmt: real -> string, k: nat, i: nat)
    requires i < k <= |objective|
    ensures ObjectiveTerms(objective, isMin, fmt, k)[i] == ObjectiveTerm(fmt, if isMin then -objective[i] else objective[i], i)
  {
    if i < k - 1 {
      ObjectiveTermAt(objective, isMin, fmt, k - 1, i);
    }
  }

  // ---------------------------------------------------------------------
  // The terms of a constraint row (CanonicalFormBuilder.cs:46-50, 60-64)

  /** "{c}x{i+1}". */
  function VariableTerm(fmt: real -> string, c: real, i: nat): string {
    fmt(c) + Name("x", i + 1)
  }

  /** The terms of the nonzero coefficients among the first k. */
  function TermsUpTo(coefs: seq<real>, fmt: real -> string, k: nat): seq<string>
    requires k <= |coefs|
  {
    if k == 0 then []
    else TermsUpTo(coefs, fmt, k - 1) + (if coefs[k - 1] != 0.0 then [VariableTerm(fmt, coefs[k - 1], k - 1)] else [])
  }

  /** The indices of the nonzero coefficients among the first k. */
  function NonzeroUpTo(coefs: seq<real>, k: nat): (idx: seq<nat>)
    requires k <= |coefs|
    ensures forall t :: 0 <= t < |idx| ==> idx[t] < k
  {
    if k == 0 then [] else NonzeroUpTo(coefs, k - 1) + (if coefs[k - 1] != 0.0 then [k - 1] else [])
  }

  /** The nonzero indices are exactly the columns below k with a nonzero
      coefficient, in increasing order. */
  lemma {:induction false} NonzeroExactly(coefs: seq<real>, k: nat)
    requires k <= |coefs|
    ensures forall i: nat :: i in NonzeroUpTo(coefs, k) <==> i < k && coefs[i] != 0.0
    ensures forall p, q :: 0 <= p < q < |NonzeroUpTo(coefs, k)| ==> NonzeroUpTo(coefs, k)[p] < NonzeroUpTo(coefs, k)[q]
  {
    if k > 0 {
      NonzeroExactly(coefs, k - 1);
    }
  }

  /** The terms are the terms of the nonzero columns, in the same order: a
      zero coefficient produces no term. */
  lemma {:induction false} TermsAreNonzeroColumns(coefs: seq<real>, fmt: real -> string, k: nat)
    requires k <= |coefs|
    ensures |TermsUpTo(coefs, fmt, k)| == |NonzeroUpTo(coefs, k)|
    ensures forall t :: 0 <= t < |NonzeroUpTo(coefs, k)| ==>
      TermsUpTo(coefs, fmt, k)[t] == VariableTerm(fmt, coefs[NonzeroUpTo(coefs, k)[t]], NonzeroUpTo(coefs, k)[t])
  {
    if k > 0 {
      TermsAreNonzeroColumns(coefs, fmt, k - 1);
      var terms, idx := TermsUpTo(coefs, fmt, k - 1), NonzeroUpTo(coefs, k - 1);
      if coefs[k - 1] != 0.0 {
        assert TermsUpTo(coefs, fmt, k) == terms + [VariableTerm(fmt, coefs[k - 1], k - 1)];
        assert NonzeroUpTo(coefs, k) == idx + [k - 1];
      } else {
        assert TermsUpTo(coefs, fmt, k) == terms && NonzeroUpTo(coefs, k) == idx;
      }
    }
  }

  /** Every coefficient negated (the Select(c => -c) of an excess row). */
  function NegatedAll(s: seq<real>): (r: seq<real>)
    ensures |r| == |s| && forall i :: 0 <= i < |s| ==> r[i] == -s[i]
  {
    seq(|s|, i requires 0 <= i < |s| => -s[i])
  }

  // ---------------------------------------------------------------------
  // The constraint rows (CanonicalFormBuilder.cs:35-70)

  /** The number of slack rows (slack) or of excess rows (!slack) among the
      first k: the value of slackCount or excessCount before row k. */
  function KindCount(rows: seq<seq<real>>, slack: bool, k: nat): (n: nat)
    requires k <= |rows| && forall r :: r in rows ==> WellFormedRow(r)
    ensures n <= k
  {
    if k == 0 then 0 else KindCount(rows, slack, k - 1) + (if IsSlackRow(rows[k - 1]) == slack then 1 else 0)
  }

  /** Row k of the canonical form: its (negated, for an excess row) nonzero
      terms, its slack or excess name, and "= rhs". */
  function ConstraintRow(rows: seq<seq<real>>, fmt: real -> string, k: nat): seq<string>
    requires k < |rows| && forall r :: r in rows ==> WellFormedRow(r)
  {
    var row := rows[k];
    if IsSlackRow(row) then
      TermsUpTo(Coefficients(row), fmt, |row| - 2)
        + [Name("s", KindCount(rows, true, k + 1)), "= " + fmt(Rhs(row))]
    else
      TermsUpTo(NegatedAll(Coefficients(row)), fmt, |row| - 2)
        + [Name("e", KindCount(rows, false, k + 1)), "= " + fmt(-Rhs(row))]
  }

  /** The canonical form: the objective row, then one row per constraint. */
  function CanonicalForm(objective: seq<real>, rows: seq<seq<real>>, isMin: bool, fmt: real -> string): seq<seq<string>>
    requires forall r :: r in rows ==> WellFormedRow(r)
  {
    [ObjectiveRow(objective, isMin, fmt)] + seq(|rows|, k requires 0 <= k < |rows| => ConstraintRow(rows, fmt, k))
  }

  /** A list of rows is the canonical form when it has the objective row
      and then each constraint row at its place. */
  lemma FormByRows(objective: seq<real>, rows: seq<seq<real>>, isMin: bool, fmt: real -> string, form: seq<seq<string>>)
    requires forall r :: r in rows ==> WellFormedRow(r)
    requires |form| == |rows| + 1 && form[0] == ObjectiveRow(objective, isMin, fmt)
    requires forall q :: 0 <= q < |rows| ==> form[q + 1] == ConstraintRow(rows, fmt, q)
    ensures form == CanonicalForm(objective, rows, isMin, fmt)
  {
    var f := CanonicalForm(objective, rows, isMin, fmt);
    forall i | 0 <= i < |form| ensures form[i] == f[i] {
      if i > 0 {
        assert f[i] == ConstraintRow(rows, fmt, i - 1);
      }
    }
  }

  /** The form has one row more than there are constraints, the objective
      row first; every constraint row ends with its s or e name and
      "= rhs" (the RHS negated for an excess row). */
  lemma CanonicalFormShape(objective: seq<real>, rows: seq<seq<real>>, isMin: bool, fmt: real -> string, k: nat)
    requires forall r :: r in rows ==> WellFormedRow(r)
    requires k < |rows|
    ensures var f := CanonicalForm(objective, rows, isMin, fmt);
      && |f| == |rows| + 1 && f[0] == ObjectiveRow(objective, isMin, fmt)
      && |f[k + 1]| >= 2
      && f[k + 1][|f[k + 1]| - 2] == Name(if IsSlackRow(rows[k]) then "s" else "e", KindCount(rows, IsSlackRow(rows[k]), k + 1))
      && f[k + 1][|f[k + 1]| - 1] == "= " + fmt(if IsSlackRow(rows[k]) then Rhs(rows[k]) else -Rhs(rows[k]))
  {
  }

  /** Slack rows are numbered s1, s2, ... and excess rows e1, e2, ... in
      order, each counter on its own: a row's number is at least 1, at most
      the count of its kind, and a later row of the same kind has a larger
      number. */
  lemma {:induction false} KindNumbering(rows: seq<seq<real>>, p: nat, q: nat)
    requires forall r :: r in rows ==> WellFormedRow(r)
    requires p < q < |rows| && IsSlackRow(rows[p]) == IsSlackRow(rows[q])
    ensures var slack := IsSlackRow(rows[p]);
      1 <= KindCount(rows, slack, p + 1) < KindCount(rows, slack, q + 1) <= KindCount(rows, slack, |rows|)
  {
    var slack := IsSlackRow(rows[p]);
    CountMonotone(rows, slack, p + 1, q);
    CountMonotone(rows, slack, q + 1, |rows|);
  }

  lemma {:induction false} CountMonotone(rows: seq<seq<real>>, slack: bool, a: nat, b: nat)
    requires forall r :: r in rows ==> WellFormedRow(r)
    requires a <= b <= |rows|
    ensures KindCount(rows, slack, a) <= KindCount(rows, slack, b)
  {
    if a < b {
      CountMonotone(rows, slack, a, b - 1);
    }
  }

  /** The two counters together count every row. */
  lemma {:induction false} CountsCoverRows(rows: seq<seq<real>>, k: nat)
    requires forall r :: r in rows ==> WellFormedRow(r)
    requires k <= |rows|
    ensures KindCount(rows, true, k) + KindCount(rows, false, k) == k
  {
    if k > 0 {
      CountsCoverRows(rows, k - 1);
    }
  }

  // ---------------------------------------------------------------------
  // The builder

  /** The objective loop (CanonicalFormBuilder.cs:19-31). */
  method BuildObjectiveRow(objective: seq<real>, isMin: bool, fmt: real -> string) returns (objRow: seq<string>)
    ensures objRow == ObjectiveRow(objective, isMin, fmt)
  {
    objRow := ["(z)"];
    for i := 0 to |objective|
      invariant objRow == ["(z)"] + ObjectiveTerms(objective, isMin, fmt, i)
    {
      var coef := objective[i];
      if isMin {
        coef := -coef;
      }
      objRow := objRow + ["- " + fmt(coef) + Name("x", i + 1)];
    }
    objRow := objRow + ["= 0"];
  }

  /** The term loop of one constraint row (CanonicalFormBuilder.cs:46-50,
      60-64). */
  method BuildTerms(coefs: seq<real>, fmt: real -> string) returns (terms: seq<string>)
    ensures terms == TermsUpTo(coefs, fmt, |coefs|)
  {
    terms := [];
    for i := 0 to |coefs|
      invariant terms == TermsUpTo(coefs, fmt, i)
    {
      if coefs[i] != 0.0 {
        terms := terms + [fmt(coefs[i]) + Name("x", i + 1)];
      }
    }
  }

  /** The body of the constraint loop for row k: its terms, with the
      counter of its kind advanced (CanonicalFormBuilder.cs:37-67). */
  method BuildConstraintRow(constraints: seq<seq<real>>, fmt: real -> string, k: nat, slackCount0: nat, excessCount0: nat)
    returns (terms: seq<string>, slackCount: nat, excessCount: nat)
    requires k < |constraints| && forall r :: r in constraints ==> WellFormedRow(r)
    requires slackCount0 == KindCount(constraints, true, k) && excessCount0 == KindCount(constraints, false, k)
    ensures terms == ConstraintRow(constraints, fmt, k)
    ensures slackCount == KindCount(constraints, true, k + 1) && excessCount == KindCount(constraints, false, k + 1)
  {
    slackCount, excessCount := slackCount0, excessCount0;
    var row := constraints[k];
    assert WellFormedRow(row);
    var coefs := row[..|row| - 2];
    var rhs := row[|row| - 2];
    var ctype := Truncate(row[|row| - 1]);
    if ctype == 0 {
      slackCount := slackCount + 1;
      terms := BuildTerms(coefs, fmt);
      terms := terms + [Name("s", slackCount), "= " + fmt(rhs)];
      assert coefs == Coefficients(row) && IsSlackRow(row);
    } else {
      excessCount := excessCount + 1;
      coefs := NegatedAll(coefs);
      rhs := -rhs;
      terms := BuildTerms(coefs, fmt);
      terms := terms + [Name("e", excessCount), "= " + fmt(rhs)];
      assert coefs == NegatedAll(Coefficients(row)) && !IsSlackRow(row);
    }
  }

  /** BuildCanonicalForm without its output (CanonicalFormBuilder.cs:12-79). */
  method BuildCanonicalForm(objective: seq<real>, constraints: seq<seq<real>>, isMin: bool, fmt: real -> string)
    returns (canonicalRows: seq<seq<string>>)
    requires forall r :: r in constraints ==> WellFormedRow(r)
    ensures canonicalRows == CanonicalForm(objective, constraints, isMin, fmt)
  {
    var slackCount, excessCount := 0, 0;
    var objRow := BuildObjectiveRow(objective, isMin, fmt);
    canonicalRows := [objRow];
    for k := 0 to |constraints|
      invariant slackCount == KindCount(constraints, true, k) && excessCount == KindCount(constraints, false, k)
      invariant |canonicalRows| == k + 1 && canonicalRows[0] == objRow
      invariant forall q :: 0 <= q < k ==> canonicalRows[q + 1] == ConstraintRow(constraints, fmt, q)
    {
      var terms;
      terms, slackCount, excessCount := BuildConstraintRow(constraints, fmt, k, slackCount, excessCount);
      canonicalRows := canonicalRows + [terms];
    }
    FormByRows(objective, constraints, isMin, fmt, canonicalRows);
  }
}

/** Algorithms/CuttingPlane.cs: from an optimal tableau with a fractional
    RHS, pick the constraint row whose fractional part is closest to 1/2 and
    derive a mixed-integer-rounding cut from it. The source prints the cut;
    here it is returned as data. */
module CuttingPlanes {
  import opened Common

  /** The 1e-9 used both for "fractional" and for a near tie in ChooseRow. */
  const FracTol: real := 0.000000001

  /** v - Math.Floor(v). */
  function Frac(v: real): (f: real)
    ensures 0.0 <= f < 1.0 && v == Floor(v) + f
  {
    v - Floor(v)
  }

  /** A row whose RHS has a fractional part, with that part. */
  datatype Candidate = Candidate(row: nat, frac: real)

  /** One term of the cut's left-hand side: coefficient times column. */
  datatype Term = Term(name: string, coefficient: real)

  /** lhs <= rhs. */
  datatype Cut = Cut(lhs: seq<Term>, rhs: real)

  /** What RunCuttingPlane ends with. */
  datatype Outcome = NoCutNeeded | CutAt(row: nat, frac: real, cut: Cut)

  // ---------------------------------------------------------------------
  // Step 1: the fractional rows (CuttingPlane.cs:26-33)

  /** The rows 1 .. k-1 of the RHS column whose fractional part exceeds
      FracTol, in order. */
  function Candidates(rhs: seq<real>, k: nat): seq<Candidate>
    requires k <= |rhs|
  {
    if k <= 1 then []
    else Candidates(rhs, k - 1) + (if Frac(rhs[k - 1]) > FracTol then [Candidate(k - 1, Frac(rhs[k - 1]))] else [])
  }

  /** Strictly increasing rows. */
  predicate Ascending(cands: seq<Candidate>) {
    forall p, q :: 0 <= p < q < |cands| ==> cands[p].row < cands[q].row
  }

  /** In rows that increase, a smaller row comes earlier. */
  lemma AscendingOrder(cands: seq<Candidate>, p: nat, q: nat)
    requires Ascending(cands) && p < |cands| && q < |cands| && cands[p].row < cands[q].row
    ensures p < q
  {
  }

  /** The candidates are exactly the rows 1 .. k-1 (never the z-row 0) with
      a fractional part above FracTol, each with that part, in increasing
      row order. */
  lemma {:induction false} CandidatesExactly(rhs: seq<real>, k: nat)
    requires k <= |rhs|
    ensures forall c :: c in Candidates(rhs, k) <==> 1 <= c.row < k && Frac(rhs[c.row]) > FracTol && c.frac == Frac(rhs[c.row])
    ensures Ascending(Candidates(rhs, k))
    ensures forall p :: 0 <= p < |Candidates(rhs, k)| ==> Candidates(rhs, k)[p].row < k
  {
    if k > 1 {
      CandidatesExactly(rhs, k - 1);
    }
  }

  // ---------------------------------------------------------------------
  // Step 2: the row closest to one half (CuttingPlane.cs:49-66)

  function Dist(frac: real): real {
    Abs(frac - 0.5)
  }

  /** The running best of the fold: bestDist (None while it is still
      double.MaxValue), chosenRow and chosenFrac. */
  datatype Choice = Choice(bestDist: Option<real>, row: int, frac: real)

  /** The replacement test of the fold: strictly closer, or within 1e-9 and
      earlier. Every distance is below double.MaxValue. */
  predicate Improves(d: real, row: nat, best: Choice) {
    match best.bestDist
    case None => true
    case Some(b) => d < b || (Abs(d - b) < FracTol && row < best.row)
  }

  /** The fold over the first k candidates. */
  function ChooseFrom(cands: seq<Candidate>, k: nat): Choice
    requires k <= |cands|
  {
    if k == 0 then Choice(None, -1, 0.0)
    else
      var best, c := ChooseFrom(cands, k - 1), cands[k - 1];
      if Improves(Dist(c.frac), c.row, best) then Choice(Some(Dist(c.frac)), c.row, c.frac) else best
  }

  /** Candidate j is closest to 1/2 among the first k, and strictly closer
      than every one before it. */
  predicate EarliestClosest(cands: seq<Candidate>, k: nat, j: nat)
    requires k <= |cands|
  {
    && j < k
    && (forall p :: 0 <= p < k ==> Dist(cands[j].frac) <= Dist(cands[p].frac))
    && (forall p :: 0 <= p < j ==> Dist(cands[j].frac) < Dist(cands[p].frac))
  }

  /** On candidates in row order the near-tie clause never fires, so the
      fold picks the earliest candidate closest to 1/2. */
  lemma {:induction false} ChooseFromClosest(cands: seq<Candidate>, k: nat)
    requires Ascending(cands) && 0 < k <= |cands|
    ensures exists j: nat :: (EarliestClosest(cands, k, j)
      && ChooseFrom(cands, k) == Choice(Some(Dist(cands[j].frac)), cands[j].row, cands[j].frac))
  {
    if k == 1 {
      assert EarliestClosest(cands, 1, 0);
    } else {
      ChooseFromClosest(cands, k - 1);
      var j: nat :| EarliestClosest(cands, k - 1, j)
        && ChooseFrom(cands, k - 1) == Choice(Some(Dist(cands[j].frac)), cands[j].row, cands[j].frac);
      var c := cands[k - 1];
      assert cands[j].row < c.row;
      if Dist(c.frac) < Dist(cands[j].frac) {
        assert EarliestClosest(cands, k, k - 1);
      } else {
        assert EarliestClosest(cands, k, j);
      }
    }
  }

  // ---------------------------------------------------------------------
  // Step 3: the cut (CuttingPlane.cs:68-100)

  /** Columns named x.., s.. or e.. go to the left-hand side. */
  predicate OnLeft(name: string) {
    |name| > 0 && (name[0] == 'x' || name[0] == 's' || name[0] == 'e')
  }

  /** lhsFractions and rhsConstant after the first k columns of the row:
      a column whose fractional part exceeds FracTol adds a term with that
      part when it is on the left, and adds the part to rhsConstant
      otherwise. */
  function CutParts(row: seq<real>, names: seq<string>, k: nat): (parts: (seq<Term>, real))
    requires k <= |row| && k <= |names|
    ensures parts.1 >= 0.0
    ensures forall t :: t in parts.0 ==> OnLeft(t.name) && FracTol < t.coefficient < 1.0
    ensures forall j :: 0 <= j < k && Frac(row[j]) > FracTol && OnLeft(names[j]) ==> Term(names[j], Frac(row[j])) in parts.0
  {
    if k == 0 then ([], 0.0)
    else
      var (terms, constant) := CutParts(row, names, k - 1);
      var f := Frac(row[k - 1]);
      if Abs(f) > FracTol then
        if OnLeft(names[k - 1]) then (terms + [Term(names[k - 1], f)], constant) else (terms, constant + f)
      else (terms, constant)
  }

  /** Every term with its sign flipped (the "-" of finalLHS). */
  function Negated(terms: seq<Term>): (r: seq<Term>)
    ensures |r| == |terms| && forall i :: 0 <= i < |terms| ==> r[i] == Term(terms[i].name, -terms[i].coefficient)
  {
    seq(|terms|, i requires 0 <= i < |terms| => Term(terms[i].name, -terms[i].coefficient))
  }

  /** The cut of a tableau row whose last entry is the RHS:
      -(fractional parts) <= -rhsConstant - frac(RHS). */
  function MIRCut(row: seq<real>, names: seq<string>): Cut
    requires |row| >= 1 && |names| >= |row| - 1
  {
    var (fractions, constant) := CutParts(row, names, |row| - 1);
    Cut(Negated(fractions), -constant - Frac(row[|row| - 1]))
  }

  /** A cut from a row with a fractional RHS has a negative right-hand side
      and one term -f (with FracTol < f < 1) for each left-hand column whose
      fractional part f exceeds FracTol. */
  lemma MIRCutShape(row: seq<real>, names: seq<string>)
    requires |row| >= 1 && |names| >= |row| - 1 && Frac(row[|row| - 1]) > FracTol
    ensures MIRCut(row, names).rhs < 0.0
    ensures forall t :: t in MIRCut(row, names).lhs ==> OnLeft(t.name) && -1.0 < t.coefficient < -FracTol
    ensures forall j :: 0 <= j < |row| - 1 && Frac(row[j]) > FracTol && OnLeft(names[j]) ==>
      Term(names[j], -Frac(row[j])) in MIRCut(row, names).lhs
  {
    var (fractions, constant) := CutParts(row, names, |row| - 1);
    var lhs := Negated(fractions);
    forall t | t in lhs ensures OnLeft(t.name) && -1.0 < t.coefficient < -FracTol {
      var i :| 0 <= i < |lhs| && lhs[i] == t;
      assert fractions[i] in fractions;
    }
    forall j | 0 <= j < |row| - 1 && Frac(row[j]) > FracTol && OnLeft(names[j])
      ensures Term(names[j], -Frac(row[j])) in lhs
    {
      var i :| 0 <= i < |fractions| && fractions[i] == Term(names[j], Frac(row[j]));
      assert lhs[i] == Term(names[j], -Frac(row[j]));
    }
  }

  // ---------------------------------------------------------------------
  // The whole run (CuttingPlane.cs:20-47)

  /** The RHS column of a tableau given as rows. */
  function RhsColumn(T: seq<seq<real>>, w: nat): (rhs: seq<real>)
    requires w >= 1 && Rectangular(T, w)
    ensures |rhs| == |T| && forall i :: 0 <= i < |T| ==> rhs[i] == T[i][w - 1]
  {
    Column(T, w - 1)
  }

  /** No fractional row: no cut; otherwise the chosen row and its cut. */
  function CuttingPlaneOutcome(T: seq<seq<real>>, w: nat, names: seq<string>): Outcome
    requires w >= 1 && Rectangular(T, w) && |names| >= w - 1
  {
    var rhs := RhsColumn(T, w);
    var cands := Candidates(rhs, |rhs|);
    if |cands| == 0 then NoCutNeeded
    else
      var choice := ChooseFrom(cands, |cands|);
      if 0 <= choice.row < |T| then CutAt(choice.row, choice.frac, MIRCut(T[choice.row], names))
      else NoCutNeeded
  }

  /** There is no candidate exactly when no row from 1 onwards has a
      fractional part above FracTol. */
  lemma NoCandidatesIff(rhs: seq<real>)
    ensures |Candidates(rhs, |rhs|)| == 0 <==> forall i :: 1 <= i < |rhs| ==> Frac(rhs[i]) <= FracTol
  {
    var cands := Candidates(rhs, |rhs|);
    CandidatesExactly(rhs, |rhs|);
    if |cands| == 0 {
      forall i | 1 <= i < |rhs| ensures Frac(rhs[i]) <= FracTol {
        assert Candidate(i, Frac(rhs[i])) !in cands;
      }
    } else {
      assert cands[0] in cands;
    }
  }

  /** The fold over the candidates picks a row from 1 onwards, with its
      fractional part, closest to 1/2 of all candidates and strictly closer
      than every earlier one. */
  lemma ChosenCandidate(rhs: seq<real>)
    requires |Candidates(rhs, |rhs|)| > 0
    ensures var cands := Candidates(rhs, |rhs|); var c := ChooseFrom(cands, |cands|);
      && 1 <= c.row < |rhs| && c.frac == Frac(rhs[c.row]) && FracTol < c.frac < 1.0
      && (forall i :: 1 <= i < |rhs| && Frac(rhs[i]) > FracTol ==> Dist(c.frac) <= Dist(Frac(rhs[i])))
      && (forall i :: 1 <= i < c.row && Frac(rhs[i]) > FracTol ==> Dist(c.frac) < Dist(Frac(rhs[i])))
  {
    var cands := Candidates(rhs, |rhs|);
    CandidatesExactly(rhs, |rhs|);
    ChooseFromClosest(cands, |cands|);
    var j: nat :| EarliestClosest(cands, |cands|, j)
      && ChooseFrom(cands, |cands|) == Choice(Some(Dist(cands[j].frac)), cands[j].row, cands[j].frac);
    assert cands[j] in cands;
    forall i | 1 <= i < |rhs| && Frac(rhs[i]) > FracTol ensures Dist(cands[j].frac) <= Dist(Frac(rhs[i])) {
      assert Candidate(i, Frac(rhs[i])) in cands;
    }
    forall i | 1 <= i < cands[j].row && Frac(rhs[i]) > FracTol ensures Dist(cands[j].frac) < Dist(Frac(rhs[i])) {
      assert Candidate(i, Frac(rhs[i])) in cands;
      var p :| 0 <= p < |cands| && cands[p] == Candidate(i, Frac(rhs[i]));
      AscendingOrder(cands, p, j);
    }
  }

  /** No cut exactly when no constraint row (row 1 onwards) has a
      fractional part above FracTol. */
  lemma NoCutIff(T: seq<seq<real>>, w: nat, names: seq<string>)
    requires w >= 1 && Rectangular(T, w) && |names| >= w - 1
    ensures CuttingPlaneOutcome(T, w, names) == NoCutNeeded <==>
      forall i :: 1 <= i < |T| ==> Frac(T[i][w - 1]) <= FracTol
  {
    var rhs := RhsColumn(T, w);
    NoCandidatesIff(rhs);
    if |Candidates(rhs, |rhs|)| > 0 {
      ChosenCandidate(rhs);
    }
  }

  /** Otherwise the cut is taken from the earliest constraint row whose
      fractional part f is closest to 1/2; FracTol < f < 1, and the cut's
      right-hand side is negative. */
  lemma CutChoice(T: seq<seq<real>>, w: nat, names: seq<string>)
    requires w >= 1 && Rectangular(T, w) && |names| >= w - 1
    requires CuttingPlaneOutcome(T, w, names).CutAt?
    ensures var o := CuttingPlaneOutcome(T, w, names);
      && 1 <= o.row < |T| && o.frac == Frac(T[o.row][w - 1]) && FracTol < o.frac < 1.0
      && (forall i :: 1 <= i < |T| && Frac(T[i][w - 1]) > FracTol ==> Dist(o.frac) <= Dist(Frac(T[i][w - 1])))
      && (forall i :: 1 <= i < o.row && Frac(T[i][w - 1]) > FracTol ==> Dist(o.frac) < Dist(Frac(T[i][w - 1])))
      && o.cut == MIRCut(T[o.row], names) && o.cut.rhs < 0.0
  {
    var rhs := RhsColumn(T, w);
    ChosenCandidate(rhs);
    var o := CuttingPlaneOutcome(T, w, names);
    MIRCutShape(T[o.row], names);
  }

  /** The finalLHS loop: each fraction with a "-" in front
      (CuttingPlane.cs:95-97). */
  method NegateAll(lhsFractions: seq<Term>) returns (finalLHS: seq<Term>)
    ensures finalLHS == Negated(lhsFractions)
  {
    finalLHS := [];
    for k := 0 to |lhsFractions|
      invariant finalLHS == Negated(lhsFractions[..k])
    {
      finalLHS := finalLHS + [Term(lhsFractions[k].name, -lhsFractions[k].coefficient)];
    }
    assert lhsFractions[..|lhsFractions|] == lhsFractions;
  }

  // ---------------------------------------------------------------------
  // The class

  class CuttingPlane {
    const tableau: array2<real>
    const columnNames: array<string>

    constructor (tableau: array2<real>, columnNames: array<string>)
      ensures this.tableau == tableau && this.columnNames == columnNames
    {
      this.tableau := tableau;
      this.columnNames := columnNames;
    }

    /** RunCuttingPlane without its printing (CuttingPlane.cs:20-47). The
        tableau is only read. */
    method RunCuttingPlane() returns (outcome: Outcome)
      requires tableau.Length1 >= 1 && columnNames.Length >= tableau.Length1 - 1
      ensures outcome == CuttingPlaneOutcome(Grid(tableau), tableau.Length1, columnNames[..])
    {
      ghost var rhs := RhsColumn(Grid(tableau), tableau.Length1);
      var fractionalRows := FractionalRows();
      if |fractionalRows| == 0 {
        return NoCutNeeded;
      }
      var chosenRow, chosenFrac := ChooseRow(fractionalRows);
      ChosenCandidate(rhs);
      var cut := GenerateMIRCut(chosenRow);
      outcome := CutAt(chosenRow, chosenFrac, cut);
    }

    /** Step 1 of RunCuttingPlane: the rows from 1 onwards whose RHS has a
        fractional part above FracTol (CuttingPlane.cs:26-33). */
    method FractionalRows() returns (fractionalRows: seq<Candidate>)
      requires tableau.Length1 >= 1
      ensures fractionalRows == Candidates(RhsColumn(Grid(tableau), tableau.Length1), tableau.Length0)
    {
      ghost var rhs := RhsColumn(Grid(tableau), tableau.Length1);
      fractionalRows := [];
      var i := 1;
      while i < tableau.Length0
        invariant 1 <= i && (i <= tableau.Length0 || tableau.Length0 == 0)
        invariant fractionalRows == Candidates(rhs, if i <= |rhs| then i else |rhs|)
      {
        var r := tableau[i, tableau.Length1 - 1];
        var fracPart := Frac(r);
        assert rhs[i] == r;
        if fracPart > FracTol {
          fractionalRows := fractionalRows + [Candidate(i, fracPart)];
        }
        i := i + 1;
      }
    }

    /** The running-best fold (CuttingPlane.cs:49-66). */
    method ChooseRow(fractionalRows: seq<Candidate>) returns (chosenRow: int, chosenFrac: real)
      ensures var c := ChooseFrom(fractionalRows, |fractionalRows|); chosenRow == c.row && chosenFrac == c.frac
    {
      var bestDist: Option<real> := None;
      chosenRow, chosenFrac := -1, 0.0;
      for k := 0 to |fractionalRows|
        invariant ChooseFrom(fractionalRows, k) == Choice(bestDist, chosenRow, chosenFrac)
      {
        var c := fractionalRows[k];
        var dist := Abs(c.frac - 0.5);
        if bestDist.None? || dist < bestDist.value || (Abs(dist - bestDist.value) < FracTol && c.row < chosenRow) {
          bestDist, chosenRow, chosenFrac := Some(dist), c.row, c.frac;
        }
      }
    }

    /** GenerateMIRCut without its printing (CuttingPlane.cs:68-100). */
    method GenerateMIRCut(rowIndex: nat) returns (cut: Cut)
      requires rowIndex < tableau.Length0 && tableau.Length1 >= 1 && columnNames.Length >= tableau.Length1 - 1
      ensures cut == MIRCut(Grid(tableau)[rowIndex], columnNames[..])
    {
      ghost var row := Grid(tableau)[rowIndex];
      var cols := tableau.Length1;
      var lhsFractions: seq<Term> := [];
      var rhsFraction := tableau[rowIndex, cols - 1] - Floor(tableau[rowIndex, cols - 1]);
      var rhsConstant := 0.0;
      for j := 0 to cols - 1
        invariant (lhsFractions, rhsConstant) == CutParts(row, columnNames[..], j)
      {
        var val := tableau[rowIndex, j];
        var fracPart := val - Floor(val);
        if Abs(fracPart) > FracTol {
          if OnLeft(columnNames[j]) {
            lhsFractions := lhsFractions + [Term(columnNames[j], fracPart)];
          } else {
            rhsConstant := rhsConstant + fracPart;
          }
        }
      }
      var finalLHS := NegateAll(lhsFractions);
      cut := Cut(finalLHS, -rhsConstant - rhsFraction);
    }
  }
}

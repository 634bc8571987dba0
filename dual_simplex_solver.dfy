/** The methods of DualSimplexSolver.cs, in place on the array2 tableau and
    proved against the functions of DualSimplexSpec. */
module DualSimplexSolver {
  import opened Common
  import opened DualSimplexSpec
  import opened DualSimplexRun

  // ---------------------------------------------------------------------
  // The methods, in place on the array

  /** The inner loop of GuessInitialBasis: whether column j holds a single
      entry close to 1 (at oneRow) and nothing else outside UnitTol of 0. */
  method ScanColumn(A: array2<real>, j: nat) returns (ok: bool, oneRow: int)
    requires j < A.Length1
    ensures ok && oneRow >= 0 <==> UnitColumn(Grid(A), j)
  {
    var m := A.Length0;
    ghost var v := Column(Grid(A), j);
    oneRow := -1;
    ok := true;
    var i := 0;
    while i < m
      invariant 0 <= i <= m
      invariant -1 <= oneRow < i
      invariant ok && oneRow == -1 ==> forall k :: 0 <= k < i ==> Abs(v[k]) <= UnitTol
      invariant ok && oneRow >= 0 ==>
        NearOne(v[oneRow]) && forall k :: 0 <= k < i && k != oneRow ==> Abs(v[k]) <= UnitTol
      invariant !ok ==> !UnitVector(v)
    {
      var x := A[i, j];
      if Abs(x - 1.0) < UnitTol {
        if oneRow >= 0 {
          ok := false;
          break;
        }
        oneRow := i;
      } else if Abs(x) > UnitTol {
        ok := false;
        break;
      }
      i := i + 1;
    }
  }

  /** The column loop of GuessInitialBasis: the unit columns of A from the
      left, stopping once there is one per row. */
  method CollectUnitColumns(A: array2<real>) returns (basis: seq<int>)
    ensures var u := UnitColumns(Grid(A), A.Length1, A.Length1);
      basis == u[..if |u| < A.Length0 then |u| else A.Length0]
  {
    var m := A.Length0;
    var n := A.Length1;
    ghost var G := Grid(A);
    basis := [];
    var j := 0;
    while j < n
      invariant 0 <= j <= n
      invariant |basis| < m || (m == 0 && basis == [])
      invariant basis == UnitColumns(G, n, j)
      decreases n - j
    {
      var ok, oneRow := ScanColumn(A, j);
      var found := ok && oneRow >= 0;
      assert found <==> UnitColumn(G, j);
      assert UnitColumns(G, n, j + 1) == basis + (if found then [j] else []);
      if found {
        basis := basis + [j];
        if |basis| == m {
          j := j + 1;
          break;
        }
      }
      j := j + 1;
    }
    UnitColumnsPrefix(G, n, j, n);
  }

  method GuessInitialBasis(A: array2<real>) returns (basis: seq<int>)
    ensures basis == GuessedBasis(Grid(A), A.Length1)
  {
    var m := A.Length0;
    basis := CollectUnitColumns(A);
    while |basis| < m
      invariant Padded(basis, m) == GuessedBasis(Grid(A), A.Length1)
      decreases m - |basis|
    {
      basis := basis + [|basis|];
    }
  }

  method ArgMostNegativeRhs(T: array2<real>) returns (bestRow: int)
    requires T.Length0 >= 1 && T.Length1 >= 1
    ensures bestRow == -1 <==> NoNegativeRhs(Grid(T))
    ensures bestRow != -1 ==> MostNegativeRhsRow(Grid(T), bestRow)
  {
    var m := T.Length0 - 1;
    var n := T.Length1 - 1;
    ghost var G := Grid(T);
    bestRow := -1;
    var mostNeg := -PivotTol;
    var r := 1;
    while r <= m
      invariant 1 <= r <= m + 1
      invariant bestRow == -1 ==> mostNeg == -PivotTol && forall k :: 1 <= k < r ==> G[k][n] >= -PivotTol
      invariant bestRow != -1 ==> (1 <= bestRow < r && mostNeg == G[bestRow][n] && mostNeg < -PivotTol
        && (forall k :: 1 <= k < r ==> mostNeg <= G[k][n])
        && (forall k :: 1 <= k < bestRow ==> mostNeg < G[k][n]))
    {
      var rhs := T[r, n];
      if rhs < mostNeg {
        mostNeg := rhs;
        bestRow := r;
      }
      r := r + 1;
    }
  }

  method ArgMostNegative(T: array2<real>) returns (bestJ: int)
    requires T.Length0 >= 1 && T.Length1 >= 1
    ensures bestJ == -1 <==> ZRowOptimal(Grid(T))
    ensures bestJ != -1 ==> PrimalColumnChoice(Grid(T), bestJ)
  {
    var n := T.Length1 - 1;
    ghost var G := Grid(T);
    bestJ := -1;
    var bestVal := 0.0;
    var j := 0;
    while j < n
      invariant 0 <= j <= n
      invariant bestJ == -1 ==> bestVal == 0.0 && forall k :: 0 <= k < j ==> G[0][k] >= -PivotTol
      invariant bestJ != -1 ==> (0 <= bestJ < j && bestVal == G[0][bestJ] && bestVal < -PivotTol
        && (forall k :: 0 <= k < j ==> G[0][k] >= bestVal - PivotTol)
        && (forall k :: 0 <= k < bestJ ==> G[0][k] > bestVal))
    {
      var v := T[0, j];
      if v < bestVal - PivotTol {
        bestVal := v;
        bestJ := j;
      }
      j := j + 1;
    }
  }

  method ChooseDualPivotColumn(T: array2<real>, prow: int) returns (bestJ: int)
    requires T.Length0 >= 1 && T.Length1 >= 1 && 0 <= prow < T.Length0
    ensures bestJ == -1 <==> forall j :: 0 <= j < T.Length1 - 1 ==> !DualEligible(Grid(T), prow, j)
    ensures bestJ != -1 ==> DualColumnChoice(Grid(T), prow, bestJ)
  {
    var n := T.Length1 - 1;
    ghost var G := Grid(T);
    bestJ := -1;
    var bestTheta := PosInf;
    var j := 0;
    while j < n
      invariant 0 <= j <= n
      invariant bestJ == -1 <==> bestTheta == PosInf
      invariant bestJ == -1 ==> forall k :: 0 <= k < j ==> !DualEligible(G, prow, k)
      invariant bestJ != -1 ==> (0 <= bestJ < j && DualEligible(G, prow, bestJ)
        && bestTheta == Finite(DualTheta(G, prow, bestJ))
        && (forall k :: 0 <= k < j && DualEligible(G, prow, k) ==> DualTheta(G, prow, k) >= bestTheta.r - PivotTol)
        && (forall k :: 0 <= k < bestJ && DualEligible(G, prow, k) ==> DualTheta(G, prow, k) > bestTheta.r))
    {
      var a := T[prow, j];
      var zj := T[0, j];
      if a < -PivotTol && zj < -PivotTol {
        var th := Abs(zj / a);
        assert th == DualTheta(G, prow, j);
        var better := match bestTheta
          case PosInf => true
          case Finite(b) => th < b - PivotTol || (Abs(th - b) < PivotTol && j < bestJ);
        if better {
          bestTheta := Finite(th);
          bestJ := j;
        }
      }
      j := j + 1;
    }
  }

  method RatioTest(T: array2<real>, pcol: int) returns (bestRow: int)
    requires T.Length0 >= 1 && T.Length1 >= 1 && 0 <= pcol < T.Length1
    ensures bestRow == -1 <==> NoPositiveEntry(Grid(T), pcol)
    ensures bestRow != -1 ==> RatioRowChoice(Grid(T), pcol, bestRow)
  {
    var m := T.Length0 - 1;
    var n := T.Length1 - 1;
    ghost var G := Grid(T);
    bestRow := -1;
    var bestTheta := PosInf;
    var r := 1;
    while r <= m
      invariant 1 <= r <= m + 1
      invariant bestRow == -1 <==> bestTheta == PosInf
      invariant bestRow == -1 ==> forall k :: 1 <= k < r ==> G[k][pcol] <= PivotTol
      invariant bestRow != -1 ==> (1 <= bestRow < r && G[bestRow][pcol] > PivotTol
        && bestTheta == Finite(RatioOf(G, bestRow, pcol))
        && (forall k :: 1 <= k < r && G[k][pcol] > PivotTol ==> RatioOf(G, k, pcol) >= bestTheta.r - PivotTol)
        && (forall k :: 1 <= k < bestRow && G[k][pcol] > PivotTol ==> RatioOf(G, k, pcol) > bestTheta.r))
    {
      var a := T[r, pcol];
      if a > PivotTol {
        var rhs := T[r, n];
        var th := rhs / a;
        assert th == RatioOf(G, r, pcol);
        var better := match bestTheta
          case PosInf => true
          case Finite(b) => th < b - PivotTol || (Abs(th - b) < PivotTol && r < bestRow);
        if better {
          bestTheta := Finite(th);
          bestRow := r;
        }
      }
      r := r + 1;
    }
  }

  method BuildResultFromTableau(T: array2<real>, basic: seq<int>, status: SolveStatus) returns (result: SolveResult)
    requires T.Length0 >= 1 && T.Length1 >= 1 && |basic| == T.Length0 - 1
    ensures result.status == status
    ensures result.values == ResultValues(Grid(T), basic)
    ensures result.objective == T[0, T.Length1 - 1]
  {
    var m := T.Length0 - 1;
    var n := T.Length1 - 1;
    ghost var G := Grid(T);
    var x := seq(n, _ => 0.0);
    var r := 1;
    while r <= m
      invariant 1 <= r <= m + 1 && |x| == n
      invariant forall j :: 0 <= j < n ==> x[j] == BasicValue(G, basic, j, r - 1)
    {
      var j := basic[r - 1];
      if 0 <= j < n {
        x := x[j := T[r, n]];
      }
      r := r + 1;
    }
    var z := T[0, n];
    var dict: map<int, real> := map[];
    var j := 0;
    while j < n
      invariant 0 <= j <= n
      invariant dict == map k | 0 <= k < j :: x[k]
    {
      dict := dict[j := x[j]];
      j := j + 1;
    }
    result := SolveResult(status, dict, z);
  }

  // ---------------------------------------------------------------------
  // The two phases of Solve

  /** How a phase loop ended: its stopping test held, its rule found no
      pivot, the announcement of the chosen pivot failed to find a name
      for the leaving column, or the fuel ran out. */
  datatype PhaseEnd = Finished | Stalled | Threw | Exhausted

  /** One pivot of either phase, as the loops of Solve take it: pivot in
      place, note the step and the new tableau, and put the entering column
      into the basis at the pivot row. */
  method TakeStep(T: array2<real>, ghost hist: seq<seq<seq<real>>>, steps: seq<PivotStep>, basis: seq<int>,
                  ghost basic: seq<int>, s: PivotStep)
    returns (ghost hist': seq<seq<seq<real>>>, steps': seq<PivotStep>, basis': seq<int>)
    requires Run(hist, steps, T.Length0, T.Length1) && hist[|hist| - 1] == Grid(T)
    requires PivotRule(Grid(T), s)
    requires basis == Rebased(basic, steps) && |basis| == T.Length0 - 1
    requires forall k :: 0 <= k < |basis| ==> 0 <= basis[k] < T.Length1
    modifies T
    ensures Run(hist', steps', T.Length0, T.Length1) && steps' == steps + [s]
    ensures hist'[0] == hist[0] && hist'[|hist'| - 1] == Grid(T)
    ensures basis' == Rebased(basic, steps')
    ensures forall k :: 0 <= k < |basis'| ==> 0 <= basis'[k] < T.Length1
  {
    ghost var G := Grid(T);
    var ok := Pivot(T, s.row, s.col);
    assert StepTaken(G, s, Grid(T));
    RebasedStep(basic, steps, s);
    basis' := basis[s.row - 1 := s.col];
    StepExtendsRun(hist, steps, s, Grid(T), T.Length0, T.Length1);
    hist' := hist + [Grid(T)];
    steps' := steps + [s];
  }

  /** The choice at the head of each dual iteration: the most negative RHS
      row, then the dual ratio column for it; -1 where there is none. */
  method NextDualPivot(T: array2<real>) returns (prow: int, pcol: int)
    requires T.Length0 >= 1 && T.Length1 >= 1
    ensures prow < 0 ==> NoNegativeRhs(Grid(T))
    ensures prow >= 0 && pcol < 0 ==> exists r :: (MostNegativeRhsRow(Grid(T), r)
      && forall j :: 0 <= j < T.Length1 - 1 ==> !DualEligible(Grid(T), r, j))
    ensures prow >= 0 && pcol >= 0 ==> PivotRule(Grid(T), PivotStep(DualPhase, prow, pcol))
  {
    prow := ArgMostNegativeRhs(T);
    if prow < 0 {
      pcol := -1;
      return;
    }
    pcol := ChooseDualPivotColumn(T, prow);
  }

  /** The choice at the head of each primal iteration: the most negative
      z-row column, then the ratio-test row for it; -1 where there is none. */
  method NextPrimalPivot(T: array2<real>) returns (pcol: int, prow: int)
    requires T.Length0 >= 1 && T.Length1 >= 1
    ensures pcol < 0 ==> ZRowOptimal(Grid(T))
    ensures pcol >= 0 && prow < 0 ==> exists j :: PrimalColumnChoice(Grid(T), j) && NoPositiveEntry(Grid(T), j)
    ensures pcol >= 0 && prow >= 0 ==> PivotRule(Grid(T), PivotStep(PrimalPhase, prow, pcol))
  {
    pcol := ArgMostNegative(T);
    if pcol < 0 {
      prow := -1;
      return;
    }
    prow := RatioTest(T, pcol);
  }

  /** Phase 1 of Solve: dual pivots while some RHS is below -PivotTol. */
  method RunDualPhase(T: array2<real>, basic: seq<int>, fuel: nat)
    returns (status: PhaseEnd, basis: seq<int>, ghost hist: seq<seq<seq<real>>>, steps: seq<PivotStep>)
    requires T.Length0 >= 1 && T.Length1 >= 1 && |basic| == T.Length0 - 1
    requires forall k :: 0 <= k < |basic| ==> 0 <= basic[k] < T.Length1
    modifies T
    ensures AvoidsUnnamed(basic, steps, T.Length1 - 1)
    ensures forall k :: 0 <= k < |basis| ==> 0 <= basis[k] < T.Length1
    ensures (forall k :: 0 <= k < |basic| ==> basic[k] < T.Length1 - 1) ==> status != Threw
    ensures Run(hist, steps, T.Length0, T.Length1) && AllIn(steps, DualPhase)
    ensures hist[0] == old(Grid(T)) && hist[|hist| - 1] == Grid(T)
    ensures basis == Rebased(basic, steps) && |steps| <= fuel
    ensures status == Finished ==> NoNegativeRhs(Grid(T))
    ensures status == Stalled ==> exists r :: (MostNegativeRhsRow(Grid(T), r)
      && forall j :: 0 <= j < T.Length1 - 1 ==> !DualEligible(Grid(T), r, j))
    ensures status == Threw ==> exists s: PivotStep :: s.phase == DualPhase && PivotRule(Grid(T), s) && basis[s.row - 1] == T.Length1 - 1
    ensures status == Exhausted ==> |steps| == fuel
  {
    basis := basic;
    hist := [Grid(T)];
    steps := [];
    while true
      invariant Run(hist, steps, T.Length0, T.Length1) && AllIn(steps, DualPhase)
      invariant hist[0] == old(Grid(T)) && hist[|hist| - 1] == Grid(T)
      invariant basis == Rebased(basic, steps) && |steps| <= fuel
      invariant forall k :: 0 <= k < |basis| ==> 0 <= basis[k] < T.Length1
      invariant AvoidsUnnamed(basic, steps, T.Length1 - 1)
      decreases fuel - |steps|
    {
      var prow, pcol := NextDualPivot(T);
      if prow < 0 {
        return Finished, basis, hist, steps;
      }
      if pcol < 0 {
        return Stalled, basis, hist, steps;
      }
      RebasedFrom(basic, steps, T.Length1 - 1, prow - 1);
      if basis[prow - 1] == T.Length1 - 1 {
        return Threw, basis, hist, steps;
      }
      if |steps| == fuel {
        return Exhausted, basis, hist, steps;
      }
      AvoidsUnnamedSnoc(basic, steps, PivotStep(DualPhase, prow, pcol), T.Length1 - 1);
      hist, steps, basis := TakeStep(T, hist, steps, basis, basic, PivotStep(DualPhase, prow, pcol));
    }
  }

  /** Phase 2 of Solve: primal pivots while some z-row entry is below -PivotTol. */
  method RunPrimalPhase(T: array2<real>, basic: seq<int>, fuel: nat)
    returns (status: PhaseEnd, basis: seq<int>, ghost hist: seq<seq<seq<real>>>, steps: seq<PivotStep>)
    requires T.Length0 >= 1 && T.Length1 >= 1 && |basic| == T.Length0 - 1
    requires forall k :: 0 <= k < |basic| ==> 0 <= basic[k] < T.Length1
    modifies T
    ensures AvoidsUnnamed(basic, steps, T.Length1 - 1)
    ensures forall k :: 0 <= k < |basis| ==> 0 <= basis[k] < T.Length1
    ensures (forall k :: 0 <= k < |basic| ==> basic[k] < T.Length1 - 1) ==> status != Threw
    ensures Run(hist, steps, T.Length0, T.Length1) && AllIn(steps, PrimalPhase)
    ensures hist[0] == old(Grid(T)) && hist[|hist| - 1] == Grid(T)
    ensures basis == Rebased(basic, steps) && |steps| <= fuel
    ensures status == Finished ==> ZRowOptimal(Grid(T))
    ensures status == Stalled ==> exists j :: PrimalColumnChoice(Grid(T), j) && NoPositiveEntry(Grid(T), j)
    ensures status == Threw ==> exists s: PivotStep :: s.phase == PrimalPhase && PivotRule(Grid(T), s) && basis[s.row - 1] == T.Length1 - 1
    ensures status == Exhausted ==> |steps| == fuel
  {
    basis := basic;
    hist := [Grid(T)];
    steps := [];
    while true
      invariant Run(hist, steps, T.Length0, T.Length1) && AllIn(steps, PrimalPhase)
      invariant hist[0] == old(Grid(T)) && hist[|hist| - 1] == Grid(T)
      invariant basis == Rebased(basic, steps) && |steps| <= fuel
      invariant forall k :: 0 <= k < |basis| ==> 0 <= basis[k] < T.Length1
      invariant AvoidsUnnamed(basic, steps, T.Length1 - 1)
      decreases fuel - |steps|
    {
      var pcol, prow := NextPrimalPivot(T);
      if pcol < 0 {
        return Finished, basis, hist, steps;
      }
      if prow < 0 {
        return Stalled, basis, hist, steps;
      }
      RebasedFrom(basic, steps, T.Length1 - 1, prow - 1);
      if basis[prow - 1] == T.Length1 - 1 {
        return Threw, basis, hist, steps;
      }
      if |steps| == fuel {
        return Exhausted, basis, hist, steps;
      }
      AvoidsUnnamedSnoc(basic, steps, PivotStep(PrimalPhase, prow, pcol), T.Length1 - 1);
      hist, steps, basis := TakeStep(T, hist, steps, basis, basic, PivotStep(PrimalPhase, prow, pcol));
    }
  }

  // ---------------------------------------------------------------------
  // Solve, from the canonical-form arrays A, b, c onwards

  /** The two phase loops of Solve on the canonicalised tableau; the fuel
      bounds the total number of pivots. */
  method RunPhases(T: array2<real>, basic: seq<int>, fuel: nat)
    returns (result: SolveResult, ghost history: seq<seq<seq<real>>>, steps: seq<PivotStep>, basis: seq<int>, ghost phase1: nat)
    requires T.Length0 >= 1 && T.Length1 >= 1 && |basic| == T.Length0 - 1
    requires forall k :: 0 <= k < |basic| ==> 0 <= basic[k] < T.Length1
    modifies T
    ensures SolveOutcome(result, history, steps, basis, phase1, fuel, T.Length0, T.Length1)
    ensures history[0] == old(Grid(T)) && basis == Rebased(basic, steps)
    ensures AvoidsUnnamed(basic, steps, T.Length1 - 1)
    ensures (forall k :: 0 <= k < |basic| ==> basic[k] < T.Length1 - 1) ==> result.status != Thrown
  {
    ghost var h1;
    var s1, end1;
    end1, basis, h1, s1 := RunDualPhase(T, basic, fuel);
    if end1 != Finished {
      history, steps, phase1 := h1, s1, |s1|;
      assert history[|steps|] == Grid(T);
      if end1 == Threw {
        ghost var s: PivotStep :| s.phase == DualPhase && PivotRule(Grid(T), s) && basis[s.row - 1] == T.Length1 - 1;
        result := SolveResult(Thrown, map[], 0.0);
      } else {
        result := BuildResultFromTableau(T, basis, if end1 == Stalled then Infeasible else OutOfFuel);
      }
      assert steps[..phase1] == s1 && steps[phase1..] == [];
      return;
    }
    result, history, steps, basis, phase1 := RunPrimalAfterDual(T, basic, basis, h1, s1, fuel);
  }

  /** The second half of RunPhases: phase 1 has finished, with no negative
      RHS left; run phase 2 from there and read off the result. */
  method RunPrimalAfterDual(T: array2<real>, basic: seq<int>, basis1: seq<int>, ghost h1: seq<seq<seq<real>>>,
                            s1: seq<PivotStep>, fuel: nat)
    returns (result: SolveResult, ghost history: seq<seq<seq<real>>>, steps: seq<PivotStep>, basis: seq<int>, ghost phase1: nat)
    requires T.Length0 >= 1 && T.Length1 >= 1 && |basic| == T.Length0 - 1
    requires forall k :: 0 <= k < |basic| ==> 0 <= basic[k] < T.Length1
    requires Run(h1, s1, T.Length0, T.Length1) && AllIn(s1, DualPhase) && |s1| <= fuel
    requires h1[|h1| - 1] == Grid(T) && NoNegativeRhs(Grid(T))
    requires basis1 == Rebased(basic, s1) && AvoidsUnnamed(basic, s1, T.Length1 - 1)
    requires forall k :: 0 <= k < |basis1| ==> 0 <= basis1[k] < T.Length1
    modifies T
    ensures SolveOutcome(result, history, steps, basis, phase1, fuel, T.Length0, T.Length1)
    ensures history[0] == h1[0] && basis == Rebased(basic, steps)
    ensures AvoidsUnnamed(basic, steps, T.Length1 - 1)
    ensures (forall k :: 0 <= k < |basic| ==> basic[k] < T.Length1 - 1) ==> result.status != Thrown
  {
    ghost var h2;
    var s2, end2;
    RebasedNamed(basic, s1, T.Length1 - 1);
    end2, basis, h2, s2 := RunPrimalPhase(T, basis1, fuel - |s1|);
    RunAppend(h1, s1, h2, s2, T.Length0, T.Length1);
    RebasedAppend(basic, s1, s2);
    AvoidsUnnamedAppend(basic, s1, s2, T.Length1 - 1);
    history, steps, phase1 := h1 + h2[1..], s1 + s2, |s1|;
    assert steps[..phase1] == s1 && steps[phase1..] == s2;
    assert history[phase1] == h1[|h1| - 1];
    assert history[|steps|] == h2[|h2| - 1] == Grid(T);
    if end2 == Threw {
      ghost var s: PivotStep :| s.phase == PrimalPhase && PivotRule(Grid(T), s) && basis[s.row - 1] == T.Length1 - 1;
      result := SolveResult(Thrown, map[], 0.0);
    } else {
      result := BuildResultFromTableau(T, basis, if end2 == Finished then Optimal else if end2 == Stalled then Unbounded else OutOfFuel);
    }
  }

  /** Solve from the canonical-form arrays A (m x n), b and c: build the
      tableau, canonicalise it to the guessed basis, run the dual phase and
      then the primal phase, and read off the result. */
  method Solve(A: array2<real>, b: array<real>, c: array<real>, fuel: nat)
    returns (result: SolveResult, ghost history: seq<seq<seq<real>>>, steps: seq<PivotStep>, basis: seq<int>, ghost phase1: nat)
    requires b.Length == A.Length0 && c.Length == A.Length1 && A.Length0 <= A.Length1 + 1
    ensures SolveOutcome(result, history, steps, basis, phase1, fuel, A.Length0 + 1, A.Length1 + 1)
    ensures history[0] == StartTableau(Grid(A), b[..], c[..])
    ensures basis == Rebased(GuessedBasis(Grid(A), A.Length1), steps)
    ensures AvoidsUnnamed(GuessedBasis(Grid(A), A.Length1), steps, A.Length1)
    ensures A.Length0 <= A.Length1 ==> result.status != Thrown
  {
    var T, guess := BuildStartTableau(A, b, c);
    result, history, steps, basis, phase1 := RunPhases(T, guess, fuel);
  }

  /** The set-up of Solve: guess the basis, build the tableau and put it
      into canonical form for that basis. */
  method BuildStartTableau(A: array2<real>, b: array<real>, c: array<real>) returns (T: array2<real>, guess: seq<int>)
    requires b.Length == A.Length0 && c.Length == A.Length1 && A.Length0 <= A.Length1 + 1
    ensures fresh(T) && T.Length0 == A.Length0 + 1 && T.Length1 == A.Length1 + 1
    ensures Grid(T) == StartTableau(Grid(A), b[..], c[..])
    ensures guess == GuessedBasis(Grid(A), A.Length1)
    ensures |guess| == A.Length0 && forall k :: 0 <= k < |guess| ==> 0 <= guess[k] <= A.Length1
    ensures A.Length0 <= A.Length1 ==> forall k :: 0 <= k < |guess| ==> guess[k] < A.Length1
  {
    var m := A.Length0;
    var n := A.Length1;
    guess := GuessInitialBasis(A);
    GuessedBasisShape(Grid(A), n);
    T := new real[m + 1, n + 1];
    FillTableau(T, A, b, c);
    CanonicalizeToBasis(T, guess);
  }

  /** The tableau-building loops of Solve. */
  method FillTableau(T: array2<real>, A: array2<real>, b: array<real>, c: array<real>)
    requires T.Length0 == A.Length0 + 1 && T.Length1 == A.Length1 + 1
    requires b.Length == A.Length0 && c.Length == A.Length1
    requires T != A
    modifies T
    ensures Grid(T) == InitialTableau(Grid(A), b[..], c[..])
  {
    var m := A.Length0;
    var n := A.Length1;
    var j := 0;
    while j < n
      invariant 0 <= j <= n
      invariant forall k :: 0 <= k < j ==> T[0, k] == -c[k]
    {
      T[0, j] := -c[j];
      j := j + 1;
    }
    T[0, n] := 0.0;
    var i := 0;
    while i < m
      invariant 0 <= i <= m
      invariant forall k :: 0 <= k < n ==> T[0, k] == -c[k]
      invariant T[0, n] == 0.0
      invariant forall r, k :: 0 <= r < i && 0 <= k < n ==> T[r + 1, k] == A[r, k]
      invariant forall r :: 0 <= r < i ==> T[r + 1, n] == b[r]
    {
      j := 0;
      while j < n
        invariant 0 <= j <= n
        invariant forall k :: 0 <= k < n ==> T[0, k] == -c[k]
        invariant T[0, n] == 0.0
        invariant forall r, k :: 0 <= r < i && 0 <= k < n ==> T[r + 1, k] == A[r, k]
        invariant forall r :: 0 <= r < i ==> T[r + 1, n] == b[r]
        invariant forall k :: 0 <= k < j ==> T[i + 1, k] == A[i, k]
      {
        T[i + 1, j] := A[i, j];
        j := j + 1;
      }
      T[i + 1, n] := b[i];
      i := i + 1;
    }
    GridExt(T, InitialTableau(Grid(A), b[..], c[..]));
  }
  /** Divides row r by its column-j entry, in place. */
  method DivideRow(T: array2<real>, r: int, j: int)
    requires T.Length0 >= 1 && T.Length1 >= 1 && 0 <= r < T.Length0 && 0 <= j < T.Length1 && T[r, j] != 0.0
    modifies T
    ensures Grid(T) == DividedRow(old(Grid(T)), r, j)
  {
    ghost var G := Grid(T);
    assert G == old(Grid(T));
    var piv := T[r, j];
    var c := 0;
    while c < T.Length1
      invariant 0 <= c <= T.Length1
      invariant forall i, k :: 0 <= i < T.Length0 && 0 <= k < T.Length1 ==>
        T[i, k] == if i == r && k < c then G[r][k] / piv else G[i][k]
    {
      T[r, c] := T[r, c] / piv;
      c := c + 1;
    }
    GridExt(T, DividedRow(G, r, j));
  }

  /** Row target loses f times row src, in place. */
  method SubtractRowMultiple(T: array2<real>, target: int, src: int, f: real)
    requires 0 <= target < T.Length0 && 0 <= src < T.Length0 && target != src
    modifies T
    ensures Grid(T) == old(Grid(T))[target := RowMinus(old(Grid(T))[target], f, old(Grid(T))[src])]
  {
    ghost var G := Grid(T);
    assert G == old(Grid(T));
    var c := 0;
    while c < T.Length1
      invariant 0 <= c <= T.Length1
      invariant forall k :: 0 <= k < c ==> T[target, k] == G[target][k] - f * G[src][k]
      invariant forall k :: c <= k < T.Length1 ==> T[target, k] == G[target][k]
      invariant forall i, k :: 0 <= i < T.Length0 && i != target && 0 <= k < T.Length1 ==> T[i, k] == G[i][k]
    {
      T[target, c] := T[target, c] - f * T[src, c];
      c := c + 1;
    }
    GridExt(T, G[target := RowMinus(G[target], f, G[src])]);
  }

  /** Eliminated, in place. */
  method EliminateColumn(T: array2<real>, r: int, j: int)
    requires T.Length0 >= 1 && T.Length1 >= 1 && 0 <= r < T.Length0 && 0 <= j < T.Length1
    modifies T
    ensures Grid(T) == Eliminated(old(Grid(T)), r, j)
  {
    ghost var G := Grid(T);
    assert G == old(Grid(T));
    ghost var E := Eliminated(G, r, j);
    var rr := 0;
    while rr < T.Length0
      invariant 0 <= rr <= T.Length0
      invariant |Grid(T)| == |G|
      invariant forall i :: 0 <= i < rr ==> Grid(T)[i] == E[i]
      invariant forall i :: rr <= i < |G| ==> Grid(T)[i] == G[i]
    {
      if rr != r {
        var f := T[rr, j];
        if Abs(f) >= PivotTol {
          assert Grid(T)[r] == G[r] by {
            assert E[r] == G[r];
          }
          SubtractRowMultiple(T, rr, r, f);
        }
      }
      rr := rr + 1;
    }
    assert Grid(T) == E;
  }

  /** Pivot on (prow, pcol) in place; false where the source throws
      "Zero pivot." (the tableau is then untouched). */
  method Pivot(T: array2<real>, prow: int, pcol: int) returns (ok: bool)
    requires 0 <= prow < T.Length0 && 0 <= pcol < T.Length1
    modifies T
    ensures ok <==> Abs(old(T[prow, pcol])) >= PivotTol
    ensures ok ==> Grid(T) == Pivoted(old(Grid(T)), prow, pcol)
    ensures !ok ==> Grid(T) == old(Grid(T))
  {
    var piv := T[prow, pcol];
    if Abs(piv) < PivotTol {
      return false;
    }
    DivideRow(T, prow, pcol);
    EliminateColumn(T, prow, pcol);
    ok := true;
  }

  /** Step r of CanonicalizeToBasis, in place: reduce on the basic column of
      row r, dividing the row first when its entry there is above PivotTol. */
  method CanonicalizeRow(T: array2<real>, basic: seq<int>, r: int)
    requires T.Length1 >= 1 && 1 <= r < T.Length0 && r <= |basic| && 0 <= basic[r - 1] < T.Length1
    modifies T
    ensures Grid(T) == CanonStep(old(Grid(T)), basic, r)
  {
    ghost var G := Grid(T);
    assert G == old(Grid(T));
    var j := basic[r - 1];
    var piv := T[r, j];
    if Abs(piv) > PivotTol {
      DivideRow(T, r, j);
      EliminateColumn(T, r, j);
      assert Grid(T) == Reduced(G, r, j, true);
    } else {
      EliminateColumn(T, r, j);
      assert Grid(T) == Reduced(G, r, j, false);
    }
  }

  method CanonicalizeToBasis(T: array2<real>, basic: seq<int>)
    requires T.Length0 >= 1 && T.Length1 >= 1 && |basic| >= T.Length0 - 1
    requires forall k :: 0 <= k < T.Length0 - 1 ==> 0 <= basic[k] < T.Length1
    modifies T
    ensures Grid(T) == Canonicalized(old(Grid(T)), basic, T.Length0 - 1)
  {
    var m := T.Length0 - 1;
    ghost var G0 := Grid(T);
    assert G0 == old(Grid(T));
    assert IsGrid(G0) && |G0| == m + 1 && forall k :: 0 <= k < m ==> 0 <= basic[k] < |G0[0]|;
    var done := 0;
    while done != m
      invariant 0 <= done <= m
      invariant Grid(T) == Canonicalized(G0, basic, done)
    {
      CanonicalizedNext(G0, basic, done);
      CanonicalizeRow(T, basic, done + 1);
      done := done + 1;
    }
  }

}

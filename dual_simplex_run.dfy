/** The two-phase driver of DualSimplexSolver.cs, stated on tableau values:
    the pivots each phase may take and what a finished run promises. */
module DualSimplexRun {
  import opened Common
  import opened DualSimplexSpec

  // ---------------------------------------------------------------------
  // The driver of Solve

  /** The tableau Solve builds: z-row -c | 0, then each row of A with its b. */
  function InitialTableau(A: seq<seq<real>>, b: seq<real>, c: seq<real>): (T: seq<seq<real>>)
    requires Rectangular(A, |c|) && |b| == |A|
    ensures |T| == |A| + 1 && Rectangular(T, |c| + 1)
  {
    [seq(|c|, j requires 0 <= j < |c| => -c[j]) + [0.0]]
      + seq(|A|, i requires 0 <= i < |A| => A[i] + [b[i]])
  }

  /** A tableau with rows rows, all of width cols. */
  predicate Shape(G: seq<seq<real>>, rows: nat, cols: nat) {
    rows >= 1 && cols >= 1 && |G| == rows && Rectangular(G, cols)
  }

  /** The pivot s is the one the rule of its phase picks on G. */
  predicate PivotRule(G: seq<seq<real>>, s: PivotStep) {
    && IsGrid(G) && 1 <= s.row < |G| && s.col < Rhs(G)
    && (s.phase == DualPhase ==> MostNegativeRhsRow(G, s.row) && DualColumnChoice(G, s.row, s.col))
    && (s.phase == PrimalPhase ==> PrimalColumnChoice(G, s.col) && RatioRowChoice(G, s.col, s.row))
  }

  /** One pivot as Solve takes it: chosen by the rule of its phase, then
      carried out, giving H. */
  predicate StepTaken(G: seq<seq<real>>, s: PivotStep, H: seq<seq<real>>) {
    && PivotRule(G, s)
    && Abs(G[s.row][s.col]) >= PivotTol
    && H == Pivoted(G, s.row, s.col)
  }

  /** hist lists the tableaus before and after each of the steps. */
  predicate Run(hist: seq<seq<seq<real>>>, steps: seq<PivotStep>, rows: nat, cols: nat) {
    && |hist| == |steps| + 1
    && (forall k :: 0 <= k < |hist| ==> Shape(hist[k], rows, cols))
    && (forall k {:trigger StepTaken(hist[k], steps[k], hist[k + 1])} :: 0 <= k < |steps| ==> StepTaken(hist[k], steps[k], hist[k + 1]))
  }

  /** All steps belong to phase p. */
  predicate AllIn(steps: seq<PivotStep>, p: Phase) {
    forall k :: 0 <= k < |steps| ==> steps[k].phase == p
  }

  /** Two runs, the second starting where the first ends, make one run. */
  lemma RunAppend(h1: seq<seq<seq<real>>>, s1: seq<PivotStep>, h2: seq<seq<seq<real>>>, s2: seq<PivotStep>, rows: nat, cols: nat)
    requires Run(h1, s1, rows, cols) && Run(h2, s2, rows, cols)
    requires h2[0] == h1[|h1| - 1]
    ensures Run(h1 + h2[1..], s1 + s2, rows, cols)
  {
    var h := h1 + h2[1..];
    var s := s1 + s2;
    forall k | 0 <= k < |s| ensures StepTaken(h[k], s[k], h[k + 1]) {
      if k < |s1| {
        assert h[k] == h1[k] && s[k] == s1[k] && h[k + 1] == h1[k + 1];
      } else {
        var q := k - |s1|;
        assert s[k] == s2[q];
        assert h[k + 1] == h2[q + 1];
        if q == 0 {
          assert h[k] == h1[|h1| - 1] == h2[0];
        } else {
          assert h[k] == h2[q];
        }
      }
    }
    forall k | 0 <= k < |h| ensures Shape(h[k], rows, cols) {
      if k >= |h1| {
        assert h[k] == h2[k - |h1| + 1];
      }
    }
  }

  /** The basis after the steps: each pivot puts its column in its row. */
  function Rebased(basic: seq<int>, steps: seq<PivotStep>): (r: seq<int>)
    ensures |r| == |basic|
  {
    if steps == [] then basic
    else
      var prev := Rebased(basic, steps[..|steps| - 1]);
      var s := steps[|steps| - 1];
      if 1 <= s.row <= |prev| then prev[s.row - 1 := s.col] else prev
  }

  lemma {:induction false} RebasedAppend(basic: seq<int>, s1: seq<PivotStep>, s2: seq<PivotStep>)
    ensures Rebased(basic, s1 + s2) == Rebased(Rebased(basic, s1), s2)
  {
    if s2 != [] {
      assert (s1 + s2)[..|s1 + s2| - 1] == s1 + s2[..|s2| - 1];
      RebasedAppend(basic, s1, s2[..|s2| - 1]);
    } else {
      assert s1 + s2 == s1;
    }
  }

  /** A run extended by one step taken from its last tableau. */
  lemma StepExtendsRun(hist: seq<seq<seq<real>>>, steps: seq<PivotStep>, s: PivotStep, H: seq<seq<real>>, rows: nat, cols: nat)
    requires Run(hist, steps, rows, cols) && StepTaken(hist[|hist| - 1], s, H)
    ensures Run(hist + [H], steps + [s], rows, cols)
  {
    var G := hist[|hist| - 1];
    assert Shape(H, rows, cols) by {
      assert |H| == |G| && forall i :: 0 <= i < |H| ==> |H[i]| == |G[i]|;
    }
  }

  lemma RebasedStep(basic: seq<int>, steps: seq<PivotStep>, s: PivotStep)
    requires 1 <= s.row <= |basic|
    ensures Rebased(basic, steps + [s]) == Rebased(basic, steps)[s.row - 1 := s.col]
  {
    assert (steps + [s])[..|steps|] == steps;
  }

  /** No pivot of the steps is made in a row whose guessed entry is the
      column n, which names no variable, and every pivot brings in one of
      the n variable columns. Such a row then keeps that entry until its
      first pivot, and announcing that pivot looks the entry up among the
      n names: the steps avoid these rows exactly when every announcement
      finds a name. */
  predicate AvoidsUnnamed(basic: seq<int>, steps: seq<PivotStep>, n: nat) {
    forall k :: 0 <= k < |steps| ==> Named(basic, steps[k], n)
  }

  /** Step s pivots in a row whose guessed entry names a variable and
      brings in a variable column. */
  predicate Named(basic: seq<int>, s: PivotStep, n: nat) {
    1 <= s.row <= |basic| && basic[s.row - 1] != n && s.col < n
  }

  lemma AvoidsUnnamedSnoc(basic: seq<int>, steps: seq<PivotStep>, s: PivotStep, n: nat)
    requires AvoidsUnnamed(basic, steps, n) && 1 <= s.row <= |basic| && basic[s.row - 1] != n && s.col < n
    ensures AvoidsUnnamed(basic, steps + [s], n)
  {
    assert (steps + [s])[..|steps|] == steps;
  }

  /** Along steps that avoid the unnamed rows, each basis entry is still the
      guessed one or a variable column, and an entry guessed as the column
      n is still n. */
  lemma {:induction false} RebasedFrom(basic: seq<int>, steps: seq<PivotStep>, n: nat, k: int)
    requires AvoidsUnnamed(basic, steps, n) && 0 <= k < |basic|
    ensures Rebased(basic, steps)[k] == basic[k] || Rebased(basic, steps)[k] < n
    ensures basic[k] == n ==> Rebased(basic, steps)[k] == n
    decreases |steps|
  {
    if steps != [] {
      RebasedFrom(basic, steps[..|steps| - 1], n, k);
    }
  }

  /** When every guessed entry names a variable, so does every entry of
      the basis. */
  lemma RebasedNamed(basic: seq<int>, steps: seq<PivotStep>, n: nat)
    requires AvoidsUnnamed(basic, steps, n)
    ensures (forall k :: 0 <= k < |basic| ==> basic[k] < n) ==>
      forall k :: 0 <= k < |basic| ==> Rebased(basic, steps)[k] < n
  {
    forall k | 0 <= k < |basic|
      ensures basic[k] < n ==> Rebased(basic, steps)[k] < n
    {
      RebasedFrom(basic, steps, n, k);
    }
  }

  /** The steps of a second phase, which avoid the unnamed rows of the basis
      the first phase left, avoid those of the guess as well. */
  lemma {:induction false} AvoidsUnnamedAppend(basic: seq<int>, s1: seq<PivotStep>, s2: seq<PivotStep>, n: nat)
    requires AvoidsUnnamed(basic, s1, n) && AvoidsUnnamed(Rebased(basic, s1), s2, n)
    ensures AvoidsUnnamed(basic, s1 + s2, n)
    decreases |s2|
  {
    if s2 == [] {
      assert s1 + s2 == s1;
    } else {
      var front := s2[..|s2| - 1];
      AvoidsUnnamedAppend(basic, s1, front, n);
      RebasedFrom(basic, s1, n, s2[|s2| - 1].row - 1);
      assert (s1 + s2)[..|s1 + s2| - 1] == s1 + front;
    }
  }

  /** The tableau the phases of Solve start from: the initial tableau
      canonicalised to the guessed basis. With m <= n + 1 every guessed
      entry is a column of the tableau; at m = n + 1 the last padding entry
      is the RHS column itself. */
  function StartTableau(A: seq<seq<real>>, b: seq<real>, c: seq<real>): (T: seq<seq<real>>)
    requires Rectangular(A, |c|) && |b| == |A| && |A| <= |c| + 1
    ensures Shape(T, |A| + 1, |c| + 1)
  {
    GuessedBasisShape(A, |c|);
    Canonicalized(InitialTableau(A, b, c), GuessedBasis(A, |c|), |A|)
  }

  /** What Solve promises about the run it made: the steps of phase 1 (dual)
      come before those of phase 2 (primal), phase 2 starts from a tableau
      with no negative RHS, each status is returned only when its stopping
      test holds on the last tableau, and the result is read off that
      tableau with the final basis. Thrown is returned exactly when the
      next pivot the rules pick would take out a basis entry that names no
      variable, the RHS column. */
  ghost predicate SolveOutcome(result: SolveResult, history: seq<seq<seq<real>>>, steps: seq<PivotStep>,
                         basis: seq<int>, phase1: nat, fuel: nat, rows: nat, cols: nat)
  {
    && Run(history, steps, rows, cols)
    && phase1 <= |steps| && AllIn(steps[..phase1], DualPhase) && AllIn(steps[phase1..], PrimalPhase)
    && (phase1 < |steps| || result.status == Optimal || result.status == Unbounded ==> NoNegativeRhs(history[phase1]))
    && |basis| == rows - 1 && (forall k :: 0 <= k < |basis| ==> 0 <= basis[k] < cols)
    && |steps| <= fuel && (result.status == OutOfFuel ==> |steps| == fuel)
    && (result.status == Infeasible ==> phase1 == |steps| && exists r :: (MostNegativeRhsRow(history[|steps|], r)
         && forall j :: 0 <= j < cols - 1 ==> !DualEligible(history[|steps|], r, j)))
    && (result.status == Unbounded ==> exists j :: PrimalColumnChoice(history[|steps|], j) && NoPositiveEntry(history[|steps|], j))
    && (result.status == Optimal ==> ZRowOptimal(history[|steps|]))
    && (result.status == Thrown ==>
          exists s :: (PivotRule(history[|steps|], s) && basis[s.row - 1] == cols - 1
            && (s.phase == DualPhase ==> phase1 == |steps|) && (s.phase == PrimalPhase ==> NoNegativeRhs(history[phase1]))))
    && (result.status == Thrown ==> result.values == map[] && result.objective == 0.0)
    && (result.status != Thrown ==>
          result.values == ResultValues(history[|steps|], basis) && result.objective == history[|steps|][0][cols - 1])
  }

  // ---------------------------------------------------------------------
  // One row more than variables: max x1 subject to x1 <= 2 and x1 <= 3

  /** Column 0 is no unit column, so both rows get padded entries, and the
      second names column 1 of a one-variable tableau: the RHS column. */
  lemma ExtraRowGuessedBasis()
    ensures GuessedBasis([[1.0], [1.0]], 1) == [0, 1]
  {
  }

  lemma ExtraRowInitialTableau()
    ensures InitialTableau([[1.0], [1.0]], [2.0, 3.0], [1.0]) == [[-1.0, 0.0], [1.0, 2.0], [1.0, 3.0]]
  {
    var G := InitialTableau([[1.0], [1.0]], [2.0, 3.0], [1.0]);
    assert G[0] == [-1.0, 0.0] && G[1] == [1.0, 2.0] && G[2] == [1.0, 3.0];
  }

  lemma ExtraRowFirstStep()
    ensures Reduced([[-1.0, 0.0], [1.0, 2.0], [1.0, 3.0]], 1, 0, true) == [[0.0, 2.0], [1.0, 2.0], [0.0, 1.0]]
  {
    var G := [[-1.0, 0.0], [1.0, 2.0], [1.0, 3.0]];
    assert DividedRow(G, 1, 0)[1] == [1.0, 2.0];
    assert DividedRow(G, 1, 0) == G;
    var H := Eliminated(G, 1, 0);
    assert H[0] == RowMinus(G[0], -1.0, G[1]) == [0.0, 2.0];
    assert H[2] == RowMinus(G[2], 1.0, G[1]) == [0.0, 1.0];
  }

  /** Canonicalising row 2 on the RHS column wipes the RHS of row 1. */
  lemma ExtraRowSecondStep()
    ensures Reduced([[0.0, 2.0], [1.0, 2.0], [0.0, 1.0]], 2, 1, true) == [[0.0, 0.0], [1.0, 0.0], [0.0, 1.0]]
  {
    var G := [[0.0, 2.0], [1.0, 2.0], [0.0, 1.0]];
    assert DividedRow(G, 2, 1)[2] == [0.0, 1.0];
    assert DividedRow(G, 2, 1) == G;
    var H := Eliminated(G, 2, 1);
    assert H[0] == RowMinus(G[0], 2.0, G[2]) == [0.0, 0.0];
    assert H[1] == RowMinus(G[1], 2.0, G[2]) == [1.0, 0.0];
  }

  lemma ExtraRowCanonicalized()
    ensures Canonicalized([[-1.0, 0.0], [1.0, 2.0], [1.0, 3.0]], [0, 1], 2) == [[0.0, 0.0], [1.0, 0.0], [0.0, 1.0]]
  {
    var G0 := [[-1.0, 0.0], [1.0, 2.0], [1.0, 3.0]];
    var G1 := [[0.0, 2.0], [1.0, 2.0], [0.0, 1.0]];
    ExtraRowFirstStep();
    assert Canonicalized(G0, [0, 1], 1) == CanonStep(G0, [0, 1], 1) == G1;
    ExtraRowSecondStep();
    assert CanonStep(G1, [0, 1], 2) == [[0.0, 0.0], [1.0, 0.0], [0.0, 1.0]];
  }

  lemma ExtraRowReadOff()
    ensures NoNegativeRhs([[0.0, 0.0], [1.0, 0.0], [0.0, 1.0]])
    ensures ZRowOptimal([[0.0, 0.0], [1.0, 0.0], [0.0, 1.0]])
    ensures ResultValues([[0.0, 0.0], [1.0, 0.0], [0.0, 1.0]], [0, 1]) == map[0 := 0.0]
  {
    var T := [[0.0, 0.0], [1.0, 0.0], [0.0, 1.0]];
    assert BasicValue(T, [0, 1], 0, 2) == 0.0;
    var x := seq(Rhs(T), j requires 0 <= j < Rhs(T) => BasicValue(T, [0, 1], j, |T| - 1));
    assert x == [0.0];
  }

  /** With two rows and one variable nothing throws: the start tableau
      already has no negative RHS and an optimal z-row, so Solve takes no
      pivot and reports x1 = 0 at objective 0, though the optimum is x1 = 2. */
  lemma ExtraRowStart()
    ensures StartTableau([[1.0], [1.0]], [2.0, 3.0], [1.0]) == [[0.0, 0.0], [1.0, 0.0], [0.0, 1.0]]
    ensures NoNegativeRhs(StartTableau([[1.0], [1.0]], [2.0, 3.0], [1.0]))
    ensures ZRowOptimal(StartTableau([[1.0], [1.0]], [2.0, 3.0], [1.0]))
    ensures ResultValues(StartTableau([[1.0], [1.0]], [2.0, 3.0], [1.0]), GuessedBasis([[1.0], [1.0]], 1)) == map[0 := 0.0]
  {
    ExtraRowGuessedBasis();
    ExtraRowInitialTableau();
    ExtraRowCanonicalized();
    ExtraRowReadOff();
  }
}

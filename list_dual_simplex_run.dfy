/** The run of DoDualSimplex in Algorithms/DualSimplex.cs as a function of
    its start table: phase 1 repeats dual pivots until every last-column value
    is at least -1e-9, phase 2 repeats primal pivots until the z-row admits no
    entering column, and a final table with a negative last-column value is
    dropped with its pivot record. Both loops are unbounded in the source;
    here each phase makes at most `fuel` pivots. */
module ListDualSimplexRun {
  import opened Common
  import opened ListDualSimplexSpec

  /** How a phase loop ended: its exit test held, its pivot failed, or the
      fuel bound on the number of pivots ran out. */
  datatype Stop = Reached | Stuck | Exhausted

  /** The tables a phase visits (its start included) and the pivots between them. */
  datatype Phase = Phase(tables: seq<Table>, steps: seq<Pivoting>, stop: Stop)

  /** What DoDualSimplex returns. */
  datatype Outcome =
    | NoOptimum(tableaus: seq<Table>)
      // the early return whose other components are null
    | Solved(tableaus: seq<Table>, changingVars: seq<real>, optimalSolution: real,
             pivotCols: seq<int>, pivotRows: seq<int>, headerRow: seq<string>)
    | Crashed
      // an exception leaves the method
    | OutOfFuel(tableaus: seq<Table>)
      // the fuel bound on one of the two unbounded loops ran out

  /** The outcome together with the pivot and phase records the object holds
      afterwards. */
  datatype RunEnd = RunEnd(outcome: Outcome, cols: seq<int>, rows: seq<int>, phases: seq<int>)

  function LastTable(tables: seq<Table>): Table
    requires |tables| > 0
  {
    tables[|tables| - 1]
  }

  /** Every table is a grid of the shape of T. */
  predicate Shaped(tables: seq<Table>, T: Table) {
    forall k :: 0 <= k < |tables| ==> IsGrid(tables[k]) && |tables[k]| == |T| && |tables[k][0]| == |T[0]|
  }

  /** Each table after the first comes from the one before by the pivot
      `next` proposes, taken only where the exit test `done` failed. */
  predicate Linked(tables: seq<Table>, steps: seq<Pivoting>, done: Table -> bool, next: Table -> Option<Pivoting>) {
    |tables| == |steps| + 1
    && forall k {:trigger steps[k]} :: 0 <= k < |steps| ==>
         !done(tables[k]) && next(tables[k]) == Some(steps[k]) && tables[k + 1] == steps[k].table
  }

  /** A phase loop continued from a history of tables and pivots: it stops
      when `done` holds of the last table, when no fuel is left, or when
      `next` has no pivot for it, and otherwise appends the pivoted table. */
  function Run(tables: seq<Table>, steps: seq<Pivoting>, done: Table -> bool,
               next: Table -> Option<Pivoting>, fuel: nat): (ph: Phase)
    requires |tables| > 0
    ensures |ph.tables| >= |tables|
    decreases fuel
  {
    var T := LastTable(tables);
    if done(T) then Phase(tables, steps, Reached)
    else if fuel == 0 then Phase(tables, steps, Exhausted)
    else
      match next(T)
      case None => Phase(tables, steps, Stuck)
      case Some(p) => Run(tables + [p.table], steps + [p], done, next, fuel - 1)
  }

  /** Where the loop stops at once. */
  lemma RunStops(tables: seq<Table>, steps: seq<Pivoting>, done: Table -> bool,
                 next: Table -> Option<Pivoting>, fuel: nat)
    requires |tables| > 0
    requires var L := LastTable(tables); done(L) || fuel == 0 || next(L).None?
    ensures var L := LastTable(tables);
      Run(tables, steps, done, next, fuel)
      == Phase(tables, steps, if done(L) then Reached else if fuel == 0 then Exhausted else Stuck)
  {
  }

  /** Where the loop pivots once and goes on. */
  lemma RunGoesOn(tables: seq<Table>, steps: seq<Pivoting>, done: Table -> bool,
                  next: Table -> Option<Pivoting>, fuel: nat, p: Pivoting)
    requires |tables| > 0
    requires var L := LastTable(tables); !done(L) && fuel > 0 && next(L) == Some(p)
    ensures Run(tables, steps, done, next, fuel) == Run(tables + [p.table], steps + [p], done, next, fuel - 1)
  {
  }

  /** A linked history extended by the pivot proposed for its last table. */
  lemma LinkedSnoc(tables: seq<Table>, steps: seq<Pivoting>, done: Table -> bool,
                   next: Table -> Option<Pivoting>, p: Pivoting)
    requires Linked(tables, steps, done, next)
    requires !done(LastTable(tables)) && next(LastTable(tables)) == Some(p)
    ensures Linked(tables + [p.table], steps + [p], done, next)
  {
    var t2, s2 := tables + [p.table], steps + [p];
    forall k | 0 <= k < |s2|
      ensures !done(t2[k]) && next(t2[k]) == Some(s2[k]) && t2[k + 1] == s2[k].table
    {
      assert t2[k] == tables[k];
      if k < |steps| {
        assert s2[k] == steps[k] && t2[k + 1] == tables[k + 1];
      }
    }
  }

  /** A linked history from T with `left` of `fuel` pivots to spare is where
      the loop from T stands after its pivots: running on from it is running
      from T. */
  lemma {:induction false} RunFromLinked(tables: seq<Table>, steps: seq<Pivoting>, done: Table -> bool,
                                         next: Table -> Option<Pivoting>, fuel: nat, left: nat)
    requires Linked(tables, steps, done, next) && |steps| + left == fuel
    ensures Run([tables[0]], [], done, next, fuel) == Run(tables, steps, done, next, left)
    decreases |steps|
  {
    var n := |steps|;
    if n == 0 {
      assert tables == [tables[0]];
    } else {
      var t1, s1, p := tables[..n], steps[..n - 1], steps[n - 1];
      LinkedPrefix(tables, steps, done, next);
      RunFromLinked(t1, s1, done, next, fuel, left + 1);
      assert !done(LastTable(t1)) && next(LastTable(t1)) == Some(p) by {
        assert LastTable(t1) == tables[n - 1];
      }
      assert t1 + [p.table] == tables && s1 + [p] == steps by {
        assert tables[n] == p.table;
      }
      RunGoesOn(t1, s1, done, next, left + 1, p);
    }
  }

  /** A linked history without its last pivot is linked. */
  lemma LinkedPrefix(tables: seq<Table>, steps: seq<Pivoting>, done: Table -> bool, next: Table -> Option<Pivoting>)
    requires Linked(tables, steps, done, next) && |steps| > 0
    ensures Linked(tables[..|steps|], steps[..|steps| - 1], done, next)
  {
    var t1, s1 := tables[..|steps|], steps[..|steps| - 1];
    forall k | 0 <= k < |s1|
      ensures !done(t1[k]) && next(t1[k]) == Some(s1[k]) && t1[k + 1] == s1[k].table
    {
      assert s1[k] == steps[k];
    }
  }

  /** Continuing a linked history keeps it linked and only appends to it; the
      loop stops exactly when its exit test holds of the last table, gives up
      only when no pivot is proposed, and runs out only after `fuel` pivots. */
  lemma {:induction false} RunSpec(tables: seq<Table>, steps: seq<Pivoting>, done: Table -> bool,
                                   next: Table -> Option<Pivoting>, fuel: nat)
    requires Linked(tables, steps, done, next)
    ensures var ph := Run(tables, steps, done, next, fuel); var L := LastTable(ph.tables);
      Linked(ph.tables, ph.steps, done, next)
      && ph.tables[..|tables|] == tables && ph.steps[..|steps|] == steps
      && (ph.stop == Reached <==> done(L))
      && (ph.stop == Stuck ==> next(L).None?)
      && (ph.stop == Exhausted ==> |ph.steps| == |steps| + fuel)
      && |ph.steps| <= |steps| + fuel
    decreases fuel
  {
    var L := LastTable(tables);
    if !done(L) && fuel > 0 && next(L).Some? {
      var p := next(L).value;
      var t2, s2 := tables + [p.table], steps + [p];
      LinkedSnoc(tables, steps, done, next, p);
      RunSpec(t2, s2, done, next, fuel - 1);
      var ph := Run(t2, s2, done, next, fuel - 1);
      assert Run(tables, steps, done, next, fuel) == ph;
      assert ph.tables[..|tables|] == ph.tables[..|t2|][..|tables|];
      assert ph.steps[..|steps|] == ph.steps[..|s2|][..|steps|];
    }
  }

  /** `next` turns a grid into a grid of the same shape. */
  ghost predicate KeepsShape(next: Table -> Option<Pivoting>) {
    forall T :: IsGrid(T) && next(T).Some? ==>
      IsGrid(next(T).value.table) && |next(T).value.table| == |T| && |next(T).value.table[0]| == |T[0]|
  }

  lemma {:induction false} LinkedShapedAt(tables: seq<Table>, steps: seq<Pivoting>, done: Table -> bool,
                                          next: Table -> Option<Pivoting>, k: nat)
    requires Linked(tables, steps, done, next) && KeepsShape(next) && IsGrid(tables[0]) && k < |tables|
    ensures IsGrid(tables[k]) && |tables[k]| == |tables[0]| && |tables[k][0]| == |tables[0][0]|
    decreases k
  {
    if k > 0 {
      LinkedShapedAt(tables, steps, done, next, k - 1);
      var p := steps[k - 1];
      assert next(tables[k - 1]) == Some(p);
    }
  }

  /** A history linked by a shape-keeping pivot keeps the shape of its start. */
  lemma LinkedShaped(tables: seq<Table>, steps: seq<Pivoting>, done: Table -> bool, next: Table -> Option<Pivoting>)
    requires Linked(tables, steps, done, next) && KeepsShape(next) && IsGrid(tables[0])
    ensures Shaped(tables, tables[0])
  {
    forall k | 0 <= k < |tables|
      ensures IsGrid(tables[k]) && |tables[k]| == |tables[0]| && |tables[k][0]| == |tables[0][0]|
    {
      LinkedShapedAt(tables, steps, done, next, k);
    }
  }

  /** The phase-1 exit test: every last-column value is at least -1e-9. */
  predicate DualDone(T: Table) {
    IsGrid(T) && RhsAbove(T, -RhsEpsilon)
  }

  /** The phase-1 pivot. */
  function DualNext(T: Table): Option<Pivoting> {
    if IsGrid(T) then DualStep(T) else None
  }

  /** The phase-2 exit test: no entering column in the z-row. */
  function PrimalDone(isMin: bool): Table -> bool {
    T => IsGrid(T) && ObjectiveDone(T, isMin)
  }

  /** The phase-2 pivot. */
  function PrimalNext(isMin: bool): Table -> Option<Pivoting> {
    T => if IsGrid(T) then PrimalStep(T, isMin) else None
  }

  lemma DualKeepsShape()
    ensures KeepsShape(DualNext)
  {
    forall T | IsGrid(T) && DualNext(T).Some?
      ensures IsGrid(DualNext(T).value.table) && |DualNext(T).value.table| == |T| && |DualNext(T).value.table[0]| == |T[0]|
    {
      DualStepSpec(T);
    }
  }

  lemma PrimalKeepsShape(isMin: bool)
    ensures KeepsShape(PrimalNext(isMin))
  {
    var next := PrimalNext(isMin);
    forall T | IsGrid(T) && next(T).Some?
      ensures IsGrid(next(T).value.table) && |next(T).value.table| == |T| && |next(T).value.table[0]| == |T[0]|
    {
      PrimalStepSpec(T, isMin);
    }
  }

  /** Phase 1 (DualSimplex.cs:313-352) from T with at most fuel pivots. */
  function DualPhase(T: Table, fuel: nat): Phase {
    Run([T], [], DualDone, DualNext, fuel)
  }

  /** Phase 2 (DualSimplex.cs:354-400) from T with at most fuel pivots; a failed
      primal pivot ends it. */
  function PrimalPhase(T: Table, isMin: bool, fuel: nat): Phase {
    Run([T], [], PrimalDone(isMin), PrimalNext(isMin), fuel)
  }

  /** Phase 1 visits tables of the shape of T, each the dual pivot of the one
      before; it ends when every last-column value of its last table is at
      least -1e-9, gives up only when the dual step fails there, and runs out
      only after fuel pivots. */
  lemma DualPhaseSpec(T: Table, fuel: nat)
    requires IsGrid(T)
    ensures var ph := DualPhase(T, fuel); var L := LastTable(ph.tables);
      ph.tables[0] == T && Shaped(ph.tables, T) && Linked(ph.tables, ph.steps, DualDone, DualNext)
      && (ph.stop == Reached <==> RhsAbove(L, -RhsEpsilon))
      && (ph.stop == Stuck ==> DualStep(L).None?)
      && (ph.stop == Exhausted ==> |ph.steps| == fuel)
      && |ph.steps| <= fuel
  {
    var ph := DualPhase(T, fuel);
    RunSpec([T], [], DualDone, DualNext, fuel);
    assert ph.tables[0] == ph.tables[..1][0];
    DualKeepsShape();
    LinkedShaped(ph.tables, ph.steps, DualDone, DualNext);
  }

  /** Phase 2 visits tables of the shape of T, each the primal pivot of the
      one before; it ends when the z-row of its last table admits no entering
      column, gives up only when the primal step fails there, and runs out
      only after fuel pivots. */
  lemma PrimalPhaseSpec(T: Table, isMin: bool, fuel: nat)
    requires IsGrid(T)
    ensures var ph := PrimalPhase(T, isMin, fuel); var L := LastTable(ph.tables);
      ph.tables[0] == T && Shaped(ph.tables, T) && Linked(ph.tables, ph.steps, PrimalDone(isMin), PrimalNext(isMin))
      && (ph.stop == Reached <==> ObjectiveDone(L, isMin))
      && (ph.stop == Stuck ==> PrimalStep(L, isMin).None?)
      && (ph.stop == Exhausted ==> |ph.steps| == fuel)
      && |ph.steps| <= fuel
  {
    var ph := PrimalPhase(T, isMin, fuel);
    RunSpec([T], [], PrimalDone(isMin), PrimalNext(isMin), fuel);
    assert ph.tables[0] == ph.tables[..1][0];
    PrimalKeepsShape(isMin);
    LinkedShaped(ph.tables, ph.steps, PrimalDone(isMin), PrimalNext(isMin));
  }

  function StepCols(steps: seq<Pivoting>): (cols: seq<int>)
    ensures |cols| == |steps| && forall k :: 0 <= k < |steps| ==> cols[k] == steps[k].col
  {
    seq(|steps|, k requires 0 <= k < |steps| => steps[k].col as int)
  }

  function StepRows(steps: seq<Pivoting>): (rows: seq<int>)
    ensures |rows| == |steps| && forall k :: 0 <= k < |steps| ==> rows[k] == steps[k].row
  {
    seq(|steps|, k requires 0 <= k < |steps| => steps[k].row as int)
  }

  /** n copies of the phase tag x. */
  function Tags(x: int, n: nat): (s: seq<int>)
    ensures |s| == n && forall k :: 0 <= k < n ==> s[k] == x
  {
    seq(n, k => x)
  }

  /** The records of one more pivot: records that extend c0, r0 and t0 by
      those of done extend them by those of done + [p] once p is appended. */
  lemma RecordsStep(c0: seq<int>, r0: seq<int>, t0: seq<int>, done: seq<Pivoting>, p: Pivoting, x: int,
                    cols: seq<int>, rows: seq<int>, tags: seq<int>)
    requires cols == c0 + StepCols(done) && rows == r0 + StepRows(done) && tags == t0 + Tags(x, |done|)
    ensures cols + [p.col] == c0 + StepCols(done + [p])
    ensures rows + [p.row] == r0 + StepRows(done + [p])
    ensures tags + [x] == t0 + Tags(x, |done| + 1)
  {
    assert StepCols(done + [p]) == StepCols(done) + [p.col];
    assert StepRows(done + [p]) == StepRows(done) + [p.row];
    assert Tags(x, |done| + 1) == Tags(x, |done|) + [x];
    AppendAssoc(c0, StepCols(done), [p.col]);
    AppendAssoc(r0, StepRows(done), [p.row]);
    AppendAssoc(t0, Tags(x, |done|), [x]);
  }

  lemma AppendAssoc<T>(a: seq<T>, b: seq<T>, c: seq<T>)
    ensures (a + b) + c == a + (b + c)
  {
  }

  function DropLast<T>(s: seq<T>): seq<T>
    requires |s| > 0
  {
    s[..|s| - 1]
  }

  /** Reading the result off the history: the decision values and the
      objective of the last table; a last table narrower than the objective
      makes the column reads throw. */
  function Finish(tables: seq<Table>, lenObj: nat, cols: seq<int>, rows: seq<int>, phases: seq<int>,
                  header: seq<string>): RunEnd
    requires |tables| > 0 && IsGrid(LastTable(tables))
  {
    var L := LastTable(tables);
    if lenObj > |L[0]| then RunEnd(Crashed, cols, rows, phases)
    else RunEnd(Solved(tables, ChangingVars(L, lenObj), LastOf(L[0]), cols, rows, header), cols, rows, phases)
  }

  predicate AllGrids(tables: seq<Table>) {
    forall k :: 0 <= k < |tables| ==> IsGrid(tables[k])
  }

  lemma AllGridsJoin(A: seq<Table>, TA: Table, B: seq<Table>, TB: Table)
    requires |B| > 0 && Shaped(A, TA) && Shaped(B, TB)
    ensures AllGrids(A + B[1..]) && |A + B[1..]| == |A| + |B| - 1
  {
    var all := A + B[1..];
    forall k | 0 <= k < |all| ensures IsGrid(all[k]) {
      if k >= |A| {
        assert all[k] == B[k - |A| + 1];
      }
    }
  }

  /** The end of phase 2 (DualSimplex.cs:403-411): a last table with a
      negative last-column value is dropped together with the last pivot
      record; the removals throw on empty lists. */
  function AfterPrimal(all: seq<Table>, lenObj: nat, cols: seq<int>, rows: seq<int>, phases: seq<int>,
                       header: seq<string>): RunEnd
    requires |all| > 0 && AllGrids(all) && |cols| == |rows|
  {
    if RhsAbove(LastTable(all), 0.0) then Finish(all, lenObj, cols, rows, phases, header)
    else if |cols| == 0 then RunEnd(Crashed, cols, rows, phases)
    else if |all| == 1 then RunEnd(Crashed, DropLast(cols), DropLast(rows), phases)
    else
      assert LastTable(DropLast(all)) == all[|all| - 2];
      Finish(DropLast(all), lenObj, DropLast(cols), DropLast(rows), phases, header)
  }

  /** The whole run from start table T0 with pivot records cols/rows and
      phase record phases; header is the object's header row. */
  function DualSimplexRun(T0: Table, isMin: bool, lenObj: nat, fuel: nat,
                          cols: seq<int>, rows: seq<int>, phases: seq<int>, header: seq<string>): RunEnd
    requires IsGrid(T0) && |cols| == |rows|
  {
    DualPhaseSpec(T0, fuel);
    AfterDual(T0, DualPhase(T0, fuel), isMin, lenObj, fuel, cols, rows, phases, header)
  }

  /** The run once phase 1 has produced D: stop on a failed dual pivot or
      spent fuel, finish when the z-row is already optimal, else run phase 2
      from the last table. */
  function AfterDual(T0: Table, D: Phase, isMin: bool, lenObj: nat, fuel: nat,
                     cols: seq<int>, rows: seq<int>, phases: seq<int>, header: seq<string>): RunEnd
    requires |D.tables| > 0 && Shaped(D.tables, T0) && |cols| == |rows|
  {
    var cols1, rows1, phases1 := cols + StepCols(D.steps), rows + StepRows(D.steps), phases + Tags(0, |D.steps|);
    match D.stop
    case Stuck => RunEnd(NoOptimum(D.tables), cols1, rows1, phases1)
    case Exhausted => RunEnd(OutOfFuel(D.tables), cols1, rows1, phases1)
    case Reached =>
      var L := LastTable(D.tables);
      if ObjectiveDone(L, isMin) then Finish(D.tables, lenObj, cols1, rows1, phases1, header)
      else
        PrimalPhaseSpec(L, isMin, fuel);
        AfterBoth(D.tables, PrimalPhase(L, isMin, fuel), lenObj, cols1, rows1, phases1, header)
  }

  /** The run once phase 2 has produced P from the last table of phase 1. */
  function AfterBoth(Dt: seq<Table>, P: Phase, lenObj: nat,
                     cols1: seq<int>, rows1: seq<int>, phases1: seq<int>, header: seq<string>): RunEnd
    requires |Dt| > 0 && Shaped(Dt, Dt[0]) && |P.tables| > 0 && Shaped(P.tables, P.tables[0]) && |cols1| == |rows1|
  {
    var all := Dt + P.tables[1..];
    var cols2, rows2, phases2 := cols1 + StepCols(P.steps), rows1 + StepRows(P.steps), phases1 + Tags(1, |P.steps|);
    AllGridsJoin(Dt, Dt[0], P.tables, P.tables[0]);
    if P.stop == Exhausted then RunEnd(OutOfFuel(all), cols2, rows2, phases2)
    else AfterPrimal(all, lenObj, cols2, rows2, phases2, header)
  }

  // ---------------------------------------------------------------------
  // The pivot records replay the history

  /** B is A pivoted on row r, column c. */
  predicate PivotedAt(A: Table, B: Table, r: int, c: int) {
    IsGrid(A) && 0 <= r < |A| && 0 <= c < |A[0]| && A[r][c] != 0.0 && B == PivotTable(A, r, c)
  }

  /** From position off on, the records name the pivot between each table of
      the history and the next. */
  predicate Replays(tables: seq<Table>, cols: seq<int>, rows: seq<int>, off: nat) {
    |tables| > 0 && off + |tables| - 1 <= |cols| && off + |tables| - 1 <= |rows|
    && forall i, j {:trigger tables[i], tables[j]} :: 0 <= i < |tables| && 0 <= j < |tables| && j == i + 1 ==>
         PivotedAt(tables[i], tables[j], rows[off + i], cols[off + i])
  }

  lemma ReplaysAppend(tables: seq<Table>, cols: seq<int>, rows: seq<int>, off: nat, moreCols: seq<int>, moreRows: seq<int>)
    requires Replays(tables, cols, rows, off)
    ensures Replays(tables, cols + moreCols, rows + moreRows, off)
  {
    forall i, j | 0 <= i < |tables| && 0 <= j < |tables| && j == i + 1
      ensures PivotedAt(tables[i], tables[j], (rows + moreRows)[off + i], (cols + moreCols)[off + i])
    {
      assert (rows + moreRows)[off + i] == rows[off + i] && (cols + moreCols)[off + i] == cols[off + i];
    }
  }

  /** Two replayed histories, the second starting where the first ends. */
  lemma ReplaysJoin(A: seq<Table>, B: seq<Table>, cols: seq<int>, rows: seq<int>, off: nat)
    requires Replays(A, cols, rows, off) && Replays(B, cols, rows, off + |A| - 1) && B[0] == LastTable(A)
    ensures Replays(A + B[1..], cols, rows, off)
  {
    var all := A + B[1..];
    forall i, j | 0 <= i < |all| && 0 <= j < |all| && j == i + 1
      ensures PivotedAt(all[i], all[j], rows[off + i], cols[off + i])
    {
      if j < |A| {
        assert all[i] == A[i] && all[j] == A[j];
      } else {
        var i', j' := i - |A| + 1, j - |A| + 1;
        assert all[j] == B[j'];
        if i < |A| {
          assert all[i] == B[0];
        } else {
          assert all[i] == B[i'];
        }
        assert off + |A| - 1 + i' == off + i;
      }
    }
  }

  lemma ReplaysDropLast(tables: seq<Table>, cols: seq<int>, rows: seq<int>, off: nat)
    requires Replays(tables, cols, rows, off) && |tables| >= 2 && |cols| > 0 && |rows| > 0
    requires off + |tables| - 1 == |cols| == |rows|
    ensures Replays(DropLast(tables), DropLast(cols), DropLast(rows), off)
  {
    var t := DropLast(tables);
    forall i, j | 0 <= i < |t| && 0 <= j < |t| && j == i + 1
      ensures PivotedAt(t[i], t[j], DropLast(rows)[off + i], DropLast(cols)[off + i])
    {
      assert t[i] == tables[i] && t[j] == tables[j];
    }
  }

  /** A phase-1 pivot is a pivot on its recorded row and column. */
  lemma DualNextPivots(A: Table, p: Pivoting)
    requires IsGrid(A) && DualNext(A) == Some(p)
    ensures PivotedAt(A, p.table, p.row, p.col)
  {
    DualStepSpec(A);
  }

  /** A phase-2 pivot is a pivot on its recorded row and column. */
  lemma PrimalNextPivots(A: Table, isMin: bool, p: Pivoting)
    requires IsGrid(A) && PrimalNext(isMin)(A) == Some(p)
    ensures PivotedAt(A, p.table, p.row, p.col)
  {
    PrimalStepSpec(A, isMin);
  }

  /** The records of a linked history replay it, when each of its pivots is
      a pivot on its recorded row and column. */
  lemma LinkedReplays(tables: seq<Table>, steps: seq<Pivoting>, done: Table -> bool,
                      next: Table -> Option<Pivoting>, cols: seq<int>, rows: seq<int>)
    requires Linked(tables, steps, done, next) && |cols| == |rows|
    requires forall k {:trigger steps[k]} :: 0 <= k < |steps| ==> PivotedAt(tables[k], steps[k].table, steps[k].row, steps[k].col)
    ensures Replays(tables, cols + StepCols(steps), rows + StepRows(steps), |cols|)
  {
    var cs, rs := cols + StepCols(steps), rows + StepRows(steps);
    forall i, j | 0 <= i < |tables| && 0 <= j < |tables| && j == i + 1
      ensures PivotedAt(tables[i], tables[j], rs[|cols| + i], cs[|cols| + i])
    {
      var p := steps[i];
      assert rs[|cols| + i] == p.row && cs[|cols| + i] == p.col;
    }
  }

  /** The records of phase 1 replay it. */
  lemma DualReplays(T: Table, fuel: nat, cols: seq<int>, rows: seq<int>)
    requires IsGrid(T) && |cols| == |rows|
    ensures var D := DualPhase(T, fuel);
      Replays(D.tables, cols + StepCols(D.steps), rows + StepRows(D.steps), |cols|)
  {
    var D := DualPhase(T, fuel);
    DualPhaseSpec(T, fuel);
    var tables, steps := D.tables, D.steps;
    forall k | 0 <= k < |steps| ensures PivotedAt(tables[k], steps[k].table, steps[k].row, steps[k].col) {
      DualNextPivots(tables[k], steps[k]);
    }
    LinkedReplays(tables, steps, DualDone, DualNext, cols, rows);
  }

  /** The records of phase 2 replay it. */
  lemma PrimalReplays(T: Table, isMin: bool, fuel: nat, cols: seq<int>, rows: seq<int>)
    requires IsGrid(T) && |cols| == |rows|
    ensures var P := PrimalPhase(T, isMin, fuel);
      Replays(P.tables, cols + StepCols(P.steps), rows + StepRows(P.steps), |cols|)
  {
    var P := PrimalPhase(T, isMin, fuel);
    PrimalPhaseSpec(T, isMin, fuel);
    var tables, steps := P.tables, P.steps;
    forall k | 0 <= k < |steps| ensures PivotedAt(tables[k], steps[k].table, steps[k].row, steps[k].col) {
      PrimalNextPivots(tables[k], isMin, steps[k]);
    }
    LinkedReplays(tables, steps, PrimalDone(isMin), PrimalNext(isMin), cols, rows);
  }

  /** Reading the result keeps the history and its records, and reports the
      last table's objective and decision values. */
  lemma FinishSpec(tables: seq<Table>, lenObj: nat, cols: seq<int>, rows: seq<int>, phases: seq<int>, header: seq<string>)
    requires |tables| > 0 && IsGrid(LastTable(tables))
    ensures var e := Finish(tables, lenObj, cols, rows, phases, header); var L := LastTable(tables);
      e.cols == cols && e.rows == rows && e.phases == phases
      && (e.outcome.Crashed? <==> lenObj > |L[0]|)
      && (e.outcome.Solved? ==>
            e.outcome.tableaus == tables && e.outcome.optimalSolution == L[0][|L[0]| - 1]
            && lenObj <= |L[0]| && e.outcome.changingVars == ChangingVars(L, lenObj)
            && e.outcome.pivotCols == cols && e.outcome.pivotRows == rows && e.outcome.headerRow == header)
  {
  }

  /** After phase 2 the history that is read keeps its start, and the records
      still replay it: a dropped table takes its pivot record with it. */
  lemma AfterPrimalSpec(all: seq<Table>, lenObj: nat, cols: seq<int>, rows: seq<int>, phases: seq<int>,
                        header: seq<string>, off: nat)
    requires |all| > 0 && AllGrids(all) && |cols| == |rows| == off + |all| - 1 && Replays(all, cols, rows, off)
    ensures var e := AfterPrimal(all, lenObj, cols, rows, phases, header);
      e.phases == phases && |e.cols| == |e.rows|
      && (e.outcome.Solved? ==>
            var tabs := e.outcome.tableaus;
            |tabs| > 0 && tabs[0] == all[0] && RhsAbove(LastTable(all), 0.0) == (tabs == all)
            && e.outcome.pivotCols == e.cols && e.outcome.pivotRows == e.rows
            && |e.cols| == off + |tabs| - 1 && e.cols[..off] == cols[..off] && e.rows[..off] == rows[..off]
            && Replays(tabs, e.cols, e.rows, off))
  {
    if !RhsAbove(LastTable(all), 0.0) && |cols| > 0 && |all| > 1 {
      ReplaysDropLast(all, cols, rows, off);
      assert LastTable(DropLast(all)) == all[|all| - 2];
      assert DropLast(all)[0] == all[0];
      assert DropLast(all) != all;
      assert DropLast(cols)[..off] == cols[..off] && DropLast(rows)[..off] == rows[..off];
    }
  }

  /** The outcome facts of a run, for the records from position off on. */
  predicate RunFacts(e: RunEnd, T0: Table, lenObj: nat, cols: seq<int>, rows: seq<int>, off: nat, header: seq<string>) {
    var o := e.outcome;
    |e.cols| == |e.rows|
    && (o.Solved? ==>
          |o.tableaus| > 0 && o.tableaus[0] == T0 && IsGrid(LastTable(o.tableaus))
          && o.optimalSolution == LastOf(LastTable(o.tableaus)[0])
          && lenObj <= |LastTable(o.tableaus)[0]| && o.changingVars == ChangingVars(LastTable(o.tableaus), lenObj)
          && o.pivotCols == e.cols && o.pivotRows == e.rows && o.headerRow == header
          && |e.cols| == off + |o.tableaus| - 1 && Replays(o.tableaus, e.cols, e.rows, off)
          && off <= |cols| && off <= |rows| && e.cols[..off] == cols[..off] && e.rows[..off] == rows[..off])
  }

  /** Phase 2 keeps the facts: the joined history replays from the records. */
  lemma AfterBothSpec(Dt: seq<Table>, P: Phase, lenObj: nat, cols1: seq<int>, rows1: seq<int>, phases1: seq<int>,
                      header: seq<string>, off: nat)
    requires |Dt| > 0 && Shaped(Dt, Dt[0]) && |P.tables| > 0 && Shaped(P.tables, P.tables[0]) && |cols1| == |rows1|
    requires P.tables[0] == LastTable(Dt) && |P.tables| == |P.steps| + 1
    requires |cols1| == off + |Dt| - 1 && Replays(Dt, cols1, rows1, off)
    requires Replays(P.tables, cols1 + StepCols(P.steps), rows1 + StepRows(P.steps), |cols1|)
    ensures var e := AfterBoth(Dt, P, lenObj, cols1, rows1, phases1, header);
      RunFacts(e, Dt[0], lenObj, cols1, rows1, off, header) && !e.outcome.NoOptimum?
  {
    var all := Dt + P.tables[1..];
    var cols2, rows2, phases2 := cols1 + StepCols(P.steps), rows1 + StepRows(P.steps), phases1 + Tags(1, |P.steps|);
    AllGridsJoin(Dt, Dt[0], P.tables, P.tables[0]);
    ReplaysAppend(Dt, cols1, rows1, off, StepCols(P.steps), StepRows(P.steps));
    ReplaysJoin(Dt, P.tables, cols2, rows2, off);
    assert all[0] == Dt[0];
    assert cols2[..off] == cols1[..off] && rows2[..off] == rows1[..off];
    if P.stop != Exhausted {
      AfterPrimalFacts(all, lenObj, cols2, rows2, phases2, header, off, cols1, rows1);
    }
  }

  /** The reading of the joined history keeps the facts of the run. */
  lemma AfterPrimalFacts(all: seq<Table>, lenObj: nat, cols2: seq<int>, rows2: seq<int>, phases2: seq<int>,
                         header: seq<string>, off: nat, cols1: seq<int>, rows1: seq<int>)
    requires |all| > 0 && AllGrids(all) && |cols2| == |rows2| == off + |all| - 1 && Replays(all, cols2, rows2, off)
    requires off <= |cols1| && off <= |rows1| && cols2[..off] == cols1[..off] && rows2[..off] == rows1[..off]
    ensures var e := AfterPrimal(all, lenObj, cols2, rows2, phases2, header);
      RunFacts(e, all[0], lenObj, cols1, rows1, off, header) && !e.outcome.NoOptimum?
  {
    AfterPrimalSpec(all, lenObj, cols2, rows2, phases2, header, off);
    var e := AfterPrimal(all, lenObj, cols2, rows2, phases2, header);
    if e.outcome.Solved? {
      var tabs := e.outcome.tableaus;
      assert |tabs| > 0 && IsGrid(LastTable(tabs)) by {
        if tabs != all {
          assert LastTable(tabs) == all[|all| - 2];
        }
      }
      FinishSpec(tabs, lenObj, e.cols, e.rows, phases2, header);
    }
  }

  /** What a run promises (DualSimplex.cs:297-515): the history starts at T0
      and the pivot records, which only grow past the given ones, replay it
      one record per pivot; a run without optimum ends on a table with a last-
      column value below -1e-9 whose dual step fails; a solved run reports
      the objective and decision values of its last table. */
  lemma DualSimplexRunSpec(T0: Table, isMin: bool, lenObj: nat, fuel: nat,
                           cols: seq<int>, rows: seq<int>, phases: seq<int>, header: seq<string>)
    requires IsGrid(T0) && |cols| == |rows|
    ensures var e := DualSimplexRun(T0, isMin, lenObj, fuel, cols, rows, phases, header); var o := e.outcome;
      RunFacts(e, T0, lenObj, cols, rows, |cols|, header)
      && (o.NoOptimum? ==>
            |o.tableaus| > 0 && o.tableaus[0] == T0 && IsGrid(LastTable(o.tableaus))
            && !RhsAbove(LastTable(o.tableaus), -RhsEpsilon) && DualStep(LastTable(o.tableaus)).None?
            && |e.cols| == |cols| + |o.tableaus| - 1 && Replays(o.tableaus, e.cols, e.rows, |cols|))
  {
    var D := DualPhase(T0, fuel);
    DualPhaseSpec(T0, fuel);
    DualReplays(T0, fuel, cols, rows);
    AfterDualSpec(T0, D, isMin, lenObj, fuel, cols, rows, phases, header);
  }

  /** DualSimplexRunSpec once phase 1 has produced D. */
  lemma AfterDualSpec(T0: Table, D: Phase, isMin: bool, lenObj: nat, fuel: nat,
                      cols: seq<int>, rows: seq<int>, phases: seq<int>, header: seq<string>)
    requires |D.tables| > 0 && Shaped(D.tables, T0) && |cols| == |rows|
    requires D.tables[0] == T0 && |D.tables| == |D.steps| + 1
    requires D.stop == Reached <==> RhsAbove(LastTable(D.tables), -RhsEpsilon)
    requires D.stop == Stuck ==> DualStep(LastTable(D.tables)).None?
    requires Replays(D.tables, cols + StepCols(D.steps), rows + StepRows(D.steps), |cols|)
    ensures var e := AfterDual(T0, D, isMin, lenObj, fuel, cols, rows, phases, header); var o := e.outcome;
      RunFacts(e, T0, lenObj, cols, rows, |cols|, header)
      && (o.NoOptimum? ==>
            |o.tableaus| > 0 && o.tableaus[0] == T0 && IsGrid(LastTable(o.tableaus))
            && !RhsAbove(LastTable(o.tableaus), -RhsEpsilon) && DualStep(LastTable(o.tableaus)).None?
            && |e.cols| == |cols| + |o.tableaus| - 1 && Replays(o.tableaus, e.cols, e.rows, |cols|))
  {
    var cols1, rows1, phases1 := cols + StepCols(D.steps), rows + StepRows(D.steps), phases + Tags(0, |D.steps|);
    assert cols1[..|cols|] == cols && rows1[..|rows|] == rows;
    var L := LastTable(D.tables);
    if D.stop == Reached {
      if ObjectiveDone(L, isMin) {
        FinishSpec(D.tables, lenObj, cols1, rows1, phases1, header);
      } else {
        var P := PrimalPhase(L, isMin, fuel);
        PrimalPhaseSpec(L, isMin, fuel);
        PrimalReplays(L, isMin, fuel, cols1, rows1);
        AfterBothSpec(D.tables, P, lenObj, cols1, rows1, phases1, header, |cols|);
      }
    }
  }
}

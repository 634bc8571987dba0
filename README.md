# LP and IP optimisation program: the simplex engines in Dafny

This project models the arithmetic core of a C# program that solves linear and
integer programs. The program has four independent dense-tableau simplex
engines. Each one is modelled in its own modules, with its own pivot rules and
bookkeeping.

- **DualSimplexSolver.cs**: a two-phase engine over one `(m+1) x (n+1)` array.
  The z-row is row 0 and the right-hand side is the last column. The guessed
  basis is followed by a dual phase while a right-hand side is negative, then a
  primal phase.
  - Modules: `DualSimplexSpec` (functions on the tableau as a value),
    `DualSimplexRun` (runs of pivots) and `DualSimplexSolver` (the in-place
    methods over `array2<real>`).
- **Algorithms/DualSimplex.cs**: the list-of-lists dual simplex.
  - It formulates the caller's rows in place and builds the first table and its
    header.
  - Each pivot makes a fresh table and appends the pivot's column and row to the
    record fields.
  - The tables form a history. A final table with a negative right-hand side is
    dropped together with its pivot record.
  - Modules: `ListDualSimplexSpec`, `ListDualSimplexRun` and `ListDualSimplex`
    (class `DualSimplex`).
- **Algorithms/RevisedSimplex.cs**:
  - the sign substitution `x = -x'`, `x = x1 - x2`, with a row `x <= 1` per
    binary variable, and its inverse;
  - the matrix kit, including a Gauss-Jordan inverse with row swap;
  - the solution read off a final table;
  - the basic-column and `cbv` steps of `DoPreliminaries`.
  - Modules: `RevisedMatrix`, `RevisedInverse`, `RevisedTransform`,
    `RevisedBasis` and `RevisedSimplex` (class `RevisedPrimalSimplex`).
- **Algorithms/SimplexTable.cs**: an object-style primal simplex. It has named
  basic variables, a history of table objects and a cap of 1000 iterations.
  - Modules: `SimplexTableSpec` and `SimplexTables` (classes `SimplexTable` and
    `SimplexSolver`).
- **Model/Simplex.cs** and **Model/SimplexSnap.cs**: a Big-M simplex.
  - Its matrix is column-major. It uses artificial columns and M and F rows that
    are recomputed from the basis.
  - Deep-copy snapshots record every state.
  - Modules: `BigMSpec`, `BigMSimplex` (class `Simplex`) and `SimplexSnaps`
    (class `SimplexSnap`).
- **Smaller pieces**:
  - `CuttingPlanes`: the row choice and the mixed-integer-rounding cut of
    CuttingPlane.cs, returned as data.
  - `CanonicalForms`: the rows and terms of CanonicalFormBuilder.cs.
  - `ProblemServices`: the round-robin example cursor of ProblemService.cs.
  - `Common`: shared helpers.

How the model is built:

- **Numbers.** C# `double` becomes `real`. Each tolerance of the code (1e-12,
  1e-10, 1e-9) is a named constant, compared exactly as the code compares it.
- **Exceptions.** A C# exception the code can reach becomes a `Fail` result, or
  a flag that says it was thrown.
- **Loops without a bound.** The code's `while (true)` loops take a `fuel`
  parameter and report when the fuel runs out.
- **Specification and code.** Each imperative operation is a method with its
  loops and invariants. It is proved against a specification function. The
  properties the program relies on are lemmas about those functions:
  - a pivot makes a unit column;
  - each selection rule gives -1 exactly when nothing qualifies, and otherwise
    the first index of the best value;
  - the sign substitution round-trips;
  - products have their dimensions;
  - a history grows by one table per pivot, and the pivot records replay it.

## Model

| member | source | states |
|---|---|---|
| DualSimplexSpec.ReducedColumn | DualSimplexSolver.cs:203-219 | after a dividing reduction the pivot row is divided by its entry and that entry is 1, every other row whose entry was at least 1e-12 ends with 0 there, and the rows below 1e-12 are unchanged (also without division) (also lines 315-326) |
| DualSimplexSpec.PivotedColumn | DualSimplexSolver.cs:310-327 | the pivot row is divided by the pivot, giving 1 at the pivot; every other row whose entry in the pivot column was at least 1e-12 ends with 0 there; the rows below the tolerance are left as they were; the dimensions do not change |
| DualSimplexSpec.CanonicalizedNext | DualSimplexSolver.cs:203-219 | canonicalising rows 1..r+1 is canonicalising rows 1..r followed by step r+1 |
| DualSimplexSpec.ReduceOnUnitColumnIsIdentity | DualSimplexSolver.cs:205-218 | reducing on a column that is already the exact unit vector of the row changes nothing |
| DualSimplexSpec.CanonicalizeIdempotent | DualSimplexSolver.cs:198-220 | a tableau already in canonical form for the basis is left unchanged |
| DualSimplexSpec.CanonStepMakesUnitColumn | DualSimplexSolver.cs:205-218 | a step on a usable pivot gives 1 in the basic column of its row and leaves every other row's entry there below 1e-12 |
| DualSimplexSpec.UnitColumnsSound | DualSimplexSolver.cs:172-193 | the unit columns collected are unit columns (one entry within 1e-9 of 1, the rest within 1e-9 of 0), in strictly increasing order |
| DualSimplexSpec.UnitColumnsComplete | DualSimplexSolver.cs:172-193 | every unit column is collected |
| DualSimplexSpec.UnitColumnsPrefix | DualSimplexSolver.cs:172-193 | scanning further only adds columns at the end |
| DualSimplexSpec.Padded | DualSimplexSolver.cs:194 | the padding gives m entries, keeps the scanned ones, and each added entry equals the count at the moment it is added |
| DualSimplexSpec.GuessedBasis | DualSimplexSolver.cs:166-196 | the guessed basis has exactly one entry per row |
| DualSimplexSpec.GuessedBasisShape | DualSimplexSolver.cs:166-196 | the guess is the first unit columns in strictly increasing order, then each padding entry equal to its position; with m <= n every entry is a variable column, and with m = n + 1 the last padding entry is n, the RHS column |
| DualSimplexSpec.BasicValueOfDistinctBasis | DualSimplexSolver.cs:372-377 | with distinct basis entries a basic column reads the RHS of its row and every other column reads 0 |
| DualSimplexRun.InitialTableau | DualSimplexSolver.cs:64-76 | the tableau has m+1 rows of n+1 entries |
| DualSimplexRun.RunAppend | DualSimplexSolver.cs:86-148 | a run of the first phase followed by a run of the second, starting where the first ended, is a run |
| DualSimplexRun.RebasedAppend | DualSimplexSolver.cs:108 | the basis after two runs of steps is the basis after the first, updated by the second (also line 144) |
| DualSimplexRun.StepExtendsRun | DualSimplexSolver.cs:86-148 | a run extended by one pivot chosen by its phase's rule on the last tableau is a run |
| DualSimplexRun.RebasedStep | DualSimplexSolver.cs:108 | each pivot is followed by basic[prow-1] = pcol and no other change to the basis (also line 144) |
| DualSimplexRun.StartTableau | DualSimplexSolver.cs:62-79 | the phases start from an (m+1) x (n+1) tableau; for m up to n + 1 every guessed entry indexes a column, at m = n + 1 the padding entry n pivoting on the RHS column |
| DualSimplexRun.ExtraRowGuessedBasis | DualSimplexSolver.cs:166-196 | for A = [[1],[1]] no column is a unit column, so the guess is the padding [0, 1], whose second entry is the RHS column of a one-variable tableau |
| DualSimplexRun.ExtraRowInitialTableau | DualSimplexSolver.cs:64-76 | for max x1 subject to x1 <= 2 and x1 <= 3 the tableau before canonicalisation is [[-1, 0], [1, 2], [1, 3]] |
| DualSimplexRun.ExtraRowFirstStep | DualSimplexSolver.cs:198-220 | canonicalising row 1 on column 0 gives [[0, 2], [1, 2], [0, 1]] |
| DualSimplexRun.ExtraRowSecondStep | DualSimplexSolver.cs:198-220 | canonicalising row 2 on the RHS column gives [[0, 0], [1, 0], [0, 1]], wiping the RHS of row 1 |
| DualSimplexRun.ExtraRowCanonicalized | DualSimplexSolver.cs:198-220 | the two steps together turn the example's tableau into [[0, 0], [1, 0], [0, 1]] |
| DualSimplexRun.ExtraRowReadOff | DualSimplexSolver.cs:367-380 | that tableau passes the dual stopping test (line 89) and the primal one (line 122), and with the basis [0, 1] it reads x1 = 0 |
| DualSimplexRun.ExtraRowStart | DualSimplexSolver.cs:62-79 | at m = n + 1 nothing throws when no pivot is needed: the example's start tableau passes both stopping tests at once, so Solve reports x1 = 0 and objective 0 while the optimum is x1 = 2 |
| DualSimplexRun.AvoidsUnnamedSnoc | DualSimplexSolver.cs:100-108 | a pivot in a row whose guessed entry names a variable, bringing in a variable column, extends steps that avoid the unnamed rows (also lines 138-144) |
| DualSimplexRun.RebasedFrom | DualSimplexSolver.cs:108 | along such steps every basis entry is its guessed entry or a variable column, and a guessed entry n stays n until the run ends (also line 144) |
| DualSimplexRun.RebasedNamed | DualSimplexSolver.cs:108 | when every guessed entry names a variable, every later basis entry does too (also line 144) |
| DualSimplexRun.AvoidsUnnamedAppend | DualSimplexSolver.cs:118-144 | phase-2 steps that avoid the unnamed rows of the basis phase 1 left also avoid those of the guess |
| DualSimplexSolver.ScanColumn | DualSimplexSolver.cs:174-187 | the inner scan accepts a column exactly when it is a unit column |
| DualSimplexSolver.CollectUnitColumns | DualSimplexSolver.cs:172-193 | the unit columns from the left, at most one per row |
| DualSimplexSolver.GuessInitialBasis | DualSimplexSolver.cs:166-196 | the result is the guessed basis |
| DualSimplexSolver.ArgMostNegativeRhs | DualSimplexSolver.cs:241-257 | -1 exactly when no row 1..m has RHS below -1e-12; otherwise the first row of 1..m holding the smallest RHS |
| DualSimplexSolver.ArgMostNegative | DualSimplexSolver.cs:223-238 | -1 exactly when no z-row entry of columns 0..n-1 is below -1e-12; otherwise the earliest column holding the most negative entry (up to 1e-12) |
| DualSimplexSolver.ChooseDualPivotColumn | DualSimplexSolver.cs:261-283 | -1 exactly when no column has a_rj < -1e-12 and z_j < -1e-12; otherwise such a column minimising abs(z_j / a_rj) up to 1e-12, every earlier eligible column having a strictly larger ratio |
| DualSimplexSolver.RatioTest | DualSimplexSolver.cs:286-308 | -1 exactly when column pcol has no entry above 1e-12 in rows 1..m; otherwise such a row minimising rhs / a up to 1e-12, every earlier one strictly larger |
| DualSimplexSolver.BuildResultFromTableau | DualSimplexSolver.cs:367-390 | the values have key set 0..n-1, each basic column the RHS of its (last) row and every other column 0; the objective is T[0, n]; the status is the one given |
| DualSimplexSolver.NextDualPivot | DualSimplexSolver.cs:88-92 | -1 for the row exactly when no RHS is below -1e-12; -1 for the column only with the most negative RHS row having no eligible column; otherwise a pivot the dual rules choose |
| DualSimplexSolver.NextPrimalPivot | DualSimplexSolver.cs:121-130 | -1 for the column only when no z-row entry is below -1e-12; -1 for the row only with that column having no positive entry; otherwise a pivot the primal rules choose |
| DualSimplexSolver.TakeStep | DualSimplexSolver.cs:107-108 | the pivot is carried out in place, the run grows by that one step, and basic[prow-1] = pcol (also lines 143-144) |
| DualSimplexSolver.RunDualPhase | DualSimplexSolver.cs:84-113 | every pivot is a dual pivot chosen by the dual rules and the basis follows the pivots; the phase ends only when no RHS is below -1e-12, or with the most negative RHS row having no eligible column (Infeasible), or with the chosen pivot row holding basis entry n, whose name lookup throws, or when the fuel runs out; the pivots avoid the rows guessed as n, and with no such row the phase never throws |
| DualSimplexSolver.RunPrimalPhase | DualSimplexSolver.cs:118-148 | every pivot is a primal pivot chosen by the primal rules; the phase ends only when no z-row entry is below -1e-12, or with the entering column having no positive entry (Unbounded), or with the chosen pivot row holding basis entry n (throws), or when the fuel runs out; the pivots avoid the rows guessed as n, and with no such row the phase never throws |
| DualSimplexSolver.RunPhases | DualSimplexSolver.cs:84-151 | dual pivots then primal pivots; primal ones only after no RHS is below -1e-12; Optimal only when no z-row entry is below -1e-12; Infeasible and Unbounded only on their stalls; Thrown only when the next pivot's leaving entry is n; otherwise the result is read from the last tableau and basis |
| DualSimplexSolver.RunPrimalAfterDual | DualSimplexSolver.cs:118-151 | phase 2 from the tableau a finished phase 1 left, joined to phase 1, with the same outcome as RunPhases |
| DualSimplexSolver.Solve | DualSimplexSolver.cs:44-161 | the phases start from the built tableau canonicalised to the guessed basis, the basis follows every pivot, and the outcome is as for RunPhases; with m <= n the result is never Thrown, and for m = n + 1 no pivot is ever made in the padded row (its first pivot throws) |
| DualSimplexSolver.BuildStartTableau | DualSimplexSolver.cs:62-79 | a fresh tableau equal to the start tableau, and the guessed basis; every entry is at most n, and below n when m <= n |
| DualSimplexSolver.FillTableau | DualSimplexSolver.cs:64-76 | the z-row is -c then 0, row i+1 is row i of A and then b[i] |
| DualSimplexSolver.DivideRow | DualSimplexSolver.cs:209 | row r divided by its entry in column j, nothing else changed (also line 318) |
| DualSimplexSolver.SubtractRowMultiple | DualSimplexSolver.cs:217 | row target loses f times row src, nothing else changed (also line 325) |
| DualSimplexSolver.EliminateColumn | DualSimplexSolver.cs:212-218 | column j is eliminated from the other rows above the tolerance, in place (also lines 320-326) |
| DualSimplexSolver.Pivot | DualSimplexSolver.cs:310-327 | false, with the tableau untouched, exactly where the source throws "Zero pivot." (abs(piv) < 1e-12); otherwise the tableau becomes the pivoted tableau |
| DualSimplexSolver.CanonicalizeRow | DualSimplexSolver.cs:205-218 | step r of the canonicalisation, in place |
| DualSimplexSolver.CanonicalizeToBasis | DualSimplexSolver.cs:198-220 | the tableau becomes its canonicalisation for the basis, rows 1..m in order |
| ListDualSimplexSpec.FormulatedRow | ThirdYearLP_IP_Solver/Algorithms/DualSimplex.cs:43-57 | a formulated row is one entry shorter: the flag is gone and, for a row flagged 1, every remaining entry is negated |
| ListDualSimplexSpec.FormulatedRows | ThirdYearLP_IP_Solver/Algorithms/DualSimplex.cs:43-57 | every row formulated, in place and in order |
| ListDualSimplexSpec.NamesFromAt | ThirdYearLP_IP_Solver/Algorithms/DualSimplex.cs:60-81 | name k of a header loop is its prefix with the counter's start plus k |
| ListDualSimplexSpec.HeaderNames | ThirdYearLP_IP_Solver/Algorithms/DualSimplex.cs:60-83 | one header name per column of the table |
| ListDualSimplexSpec.HeaderEntry | ThirdYearLP_IP_Solver/Algorithms/DualSimplex.cs:60-83 | the header is x1..xn, then e1..ek, then s(k+1)..s(k+s) on the same counter, then "rhs" |
| ListDualSimplexSpec.HeaderNamesDistinct | ThirdYearLP_IP_Solver/Algorithms/DualSimplex.cs:60-83 | the header names are pairwise distinct |
| ListDualSimplexSpec.FormulationTable | ThirdYearLP_IP_Solver/Algorithms/DualSimplex.cs:59-112 | the first table has one row more than there are constraints and n + m + 1 columns |
| ListDualSimplexSpec.FormulationLayout | ThirdYearLP_IP_Solver/Algorithms/DualSimplex.cs:85-112 | row 0 is -c followed by zeros; constraint row i+1 holds its coefficients then zeros up to column n, a 1 at column i+n and 0 at the other slack columns, and its RHS last |
| ListDualSimplexSpec.PivotTable | ThirdYearLP_IP_Solver/Algorithms/DualSimplex.cs:163-195 | a pivot keeps the shape of the table (also lines 260-276) |
| ListDualSimplexSpec.PivotTableUnitColumn | ThirdYearLP_IP_Solver/Algorithms/DualSimplex.cs:177-195 | the pivot column becomes the unit vector of the pivot row (also lines 262-276) |
| ListDualSimplexSpec.PivotTableIdempotent | ThirdYearLP_IP_Solver/Algorithms/DualSimplex.cs:177-195 | the pivot entry becomes 1 and pivoting again on it changes nothing (also lines 262-276) |
| ListDualSimplexSpec.PositiveFinite | ThirdYearLP_IP_Solver/Algorithms/DualSimplex.cs:150 | the candidates of a smallest positive ratio are exactly the finite positive ratios (also line 248) |
| ListDualSimplexSpec.DualThetas | ThirdYearLP_IP_Solver/Algorithms/DualSimplex.cs:128-145 | one ratio per column left of the RHS |
| ListDualSimplexSpec.PrimalThetas | ThirdYearLP_IP_Solver/Algorithms/DualSimplex.cs:226-230 | one ratio per constraint row |
| ListDualSimplexSpec.PrimalLeaving | ThirdYearLP_IP_Solver/Algorithms/DualSimplex.cs:233-254 | a leaving row is a constraint row with a finite ratio |
| ListDualSimplexSpec.PrimalColumn | ThirdYearLP_IP_Solver/Algorithms/DualSimplex.cs:211-225 | the entering column is -1 or a column left of the RHS |
| ListDualSimplexSpec.FlagCountsPartition | ThirdYearLP_IP_Solver/Algorithms/DualSimplex.cs:291-292 | the two counts GetInput reports add up to the number of constraints |
| ListDualSimplexSpec.DualPivotRowSpec | ThirdYearLP_IP_Solver/Algorithms/DualSimplex.cs:120-125 | the pivot row is -1 exactly when no last entry, the z-row's included, is negative; otherwise the first row holding the smallest last entry, which is negative |
| ListDualSimplexSpec.DualPivotColumnSpec | ThirdYearLP_IP_Solver/Algorithms/DualSimplex.cs:128-161 | the column is -1 exactly when the pivot row has no negative entry left of the RHS; otherwise it has a negative entry there, and it is the first eligible column with the smallest positive abs(z_j / a_rj), or the first eligible column when every eligible z entry is 0 |
| ListDualSimplexSpec.DualColumnAllZero | ThirdYearLP_IP_Solver/Algorithms/DualSimplex.cs:148-156 | when every ratio is 0 or infinite the sentinel is 0 and the column is the first eligible one |
| ListDualSimplexSpec.DualColumnPositive | ThirdYearLP_IP_Solver/Algorithms/DualSimplex.cs:148-156 | otherwise the column is the first eligible one with the smallest positive ratio |
| ListDualSimplexSpec.RatioZero | ThirdYearLP_IP_Solver/Algorithms/DualSimplex.cs:139 | a dual ratio is 0 exactly when the z entry is 0 (also line 148) |
| ListDualSimplexSpec.DualStepSpec | ThirdYearLP_IP_Solver/Algorithms/DualSimplex.cs:117-206 | no dual pivot exactly when no last entry is negative or the pivot row has no negative entry; otherwise the pivot is at that row and column, its ratio row is recorded and the new table has a unit vector in the pivot column |
| ListDualSimplexSpec.PrimalColumnSpec | ThirdYearLP_IP_Solver/Algorithms/DualSimplex.cs:211-225 | the entering column is -1 exactly when no z entry left of the RHS qualifies (positive for min, negative for max); otherwise the first column holding the least qualifying value |
| ListDualSimplexSpec.PrimalLeavingNone | ThirdYearLP_IP_Solver/Algorithms/DualSimplex.cs:233-252 | there is no leaving row exactly when every constraint row has 0 in the entering column or a negative ratio |
| ListDualSimplexSpec.NoPositiveFinite | ThirdYearLP_IP_Solver/Algorithms/DualSimplex.cs:239 | ratios that are all infinite or non-positive leave no positive candidate |
| ListDualSimplexSpec.PrimalLeavingSome | ThirdYearLP_IP_Solver/Algorithms/DualSimplex.cs:238-257 | otherwise the leaving row is the first row with the smallest positive ratio, or the first row with ratio 0 when none is positive |
| ListDualSimplexSpec.PrimalStepSpec | ThirdYearLP_IP_Solver/Algorithms/DualSimplex.cs:208-287 | no primal pivot exactly when no column enters or no row leaves; otherwise the pivot is there, its ratio column is recorded and the new table has a unit vector in the pivot column |
| ListDualSimplexSpec.ChangingValueSpec | ThirdYearLP_IP_Solver/Algorithms/DualSimplex.cs:475-498 | a column with one nonzero entry of magnitude 1 reads the RHS of that row; one nonzero entry of another magnitude makes IndexOf fail; any other column reads 0 |
| ListDualSimplexSpec.NonzeroCountSingle | ThirdYearLP_IP_Solver/Algorithms/DualSimplex.cs:479 | a column with one nonzero entry counts one |
| ListDualSimplexSpec.NonzeroCountZero | ThirdYearLP_IP_Solver/Algorithms/DualSimplex.cs:479 | a zero column counts none |
| ListDualSimplexRun.RunStops | ThirdYearLP_IP_Solver/Algorithms/DualSimplex.cs:313-352 | the loop stops at once when its exit test holds, when the fuel is gone or when no pivot is proposed, with the reason (also lines 361-400) |
| ListDualSimplexRun.RunGoesOn | ThirdYearLP_IP_Solver/Algorithms/DualSimplex.cs:313-352 | otherwise it appends the pivoted table and goes on (also lines 361-400) |
| ListDualSimplexRun.LinkedSnoc | ThirdYearLP_IP_Solver/Algorithms/DualSimplex.cs:350 | a linked history extended by the pivot proposed for its last table stays linked (also line 398) |
| ListDualSimplexRun.RunFromLinked | ThirdYearLP_IP_Solver/Algorithms/DualSimplex.cs:313-352 | running on from a linked history is running from its first table |
| ListDualSimplexRun.LinkedPrefix | ThirdYearLP_IP_Solver/Algorithms/DualSimplex.cs:408-410 | a linked history without its last pivot is linked |
| ListDualSimplexRun.RunSpec | ThirdYearLP_IP_Solver/Algorithms/DualSimplex.cs:313-352 | the loop keeps the history linked and only appends; it stops exactly when its exit test holds, gives up only when no pivot is proposed, and runs out only after fuel pivots (also lines 361-400) |
| ListDualSimplexRun.LinkedShaped | ThirdYearLP_IP_Solver/Algorithms/DualSimplex.cs:163-164 | a history linked by a shape-keeping pivot keeps the shape of its first table (also line 260) |
| ListDualSimplexRun.DualKeepsShape | ThirdYearLP_IP_Solver/Algorithms/DualSimplex.cs:163-195 | the dual pivot keeps the table's shape |
| ListDualSimplexRun.PrimalKeepsShape | ThirdYearLP_IP_Solver/Algorithms/DualSimplex.cs:260-276 | the primal pivot keeps the table's shape |
| ListDualSimplexRun.DualPhaseSpec | ThirdYearLP_IP_Solver/Algorithms/DualSimplex.cs:313-352 | phase 1 visits tables of the start's shape, each the dual pivot of the one before; it ends when every last-column value is at least -1e-9, gives up only when the dual pivot fails, and runs out only after fuel pivots |
| ListDualSimplexRun.PrimalPhaseSpec | ThirdYearLP_IP_Solver/Algorithms/DualSimplex.cs:354-400 | phase 2 visits tables of that shape, each the primal pivot of the one before; it ends when the z-row admits no entering column, gives up only when the primal pivot fails, and runs out only after fuel pivots |
| ListDualSimplexRun.RecordsStep | ThirdYearLP_IP_Solver/Algorithms/DualSimplex.cs:202-203 | one more pivot adds exactly its column, row and phase tag to the records (also lines 283-284, 351, 399) |
| ListDualSimplexRun.ReplaysJoin | ThirdYearLP_IP_Solver/Algorithms/DualSimplex.cs:311-400 | the records of two histories, the second starting where the first ends, replay the joined history |
| ListDualSimplexRun.ReplaysDropLast | ThirdYearLP_IP_Solver/Algorithms/DualSimplex.cs:406-411 | dropping the last table with its pivot record keeps the records replaying the history |
| ListDualSimplexRun.DualNextPivots | ThirdYearLP_IP_Solver/Algorithms/DualSimplex.cs:163-205 | a dual pivot is a pivot on the row and column it records |
| ListDualSimplexRun.PrimalNextPivots | ThirdYearLP_IP_Solver/Algorithms/DualSimplex.cs:260-286 | a primal pivot is a pivot on the row and column it records |
| ListDualSimplexRun.LinkedReplays | ThirdYearLP_IP_Solver/Algorithms/DualSimplex.cs:311-400 | the records of a linked history replay it, one record per pivot |
| ListDualSimplexRun.DualReplays | ThirdYearLP_IP_Solver/Algorithms/DualSimplex.cs:313-352 | the records of phase 1 replay it |
| ListDualSimplexRun.PrimalReplays | ThirdYearLP_IP_Solver/Algorithms/DualSimplex.cs:354-400 | the records of phase 2 replay it |
| ListDualSimplexRun.FinishSpec | ThirdYearLP_IP_Solver/Algorithms/DualSimplex.cs:475-514 | reading the result keeps the history and its records, reports the last table's objective [0].Last() and its decision values, and fails only with more decision variables than columns |
| ListDualSimplexRun.AfterPrimalSpec | ThirdYearLP_IP_Solver/Algorithms/DualSimplex.cs:403-411 | after phase 2 the history kept is exactly the full one when its last table has no negative last-column value, else that table is dropped together with its pivot record; the records still replay it |
| ListDualSimplexRun.AfterBothSpec | ThirdYearLP_IP_Solver/Algorithms/DualSimplex.cs:354-514 | after both phases the run's facts hold and it does not end without optimum |
| ListDualSimplexRun.AfterPrimalFacts | ThirdYearLP_IP_Solver/Algorithms/DualSimplex.cs:403-514 | reading the joined history keeps the facts of the run |
| ListDualSimplexRun.DualSimplexRunSpec | ThirdYearLP_IP_Solver/Algorithms/DualSimplex.cs:297-515 | the history starts at the first table; the pivot records only grow past the given ones and replay it one record per pivot; a run without optimum ends on a table with a last-column value below -1e-9 whose dual pivot fails; a solved run reports the objective and decision values of its last table |
| ListDualSimplexRun.AfterDualSpec | ThirdYearLP_IP_Solver/Algorithms/DualSimplex.cs:332-412 | the same once phase 1 has ended |
| ListDualSimplex.NegateExcessRows | ThirdYearLP_IP_Solver/Algorithms/DualSimplex.cs:43-52 | every row flagged 1 is negated entirely in the caller's array, the others are kept |
| ListDualSimplex.DropFlags | ThirdYearLP_IP_Solver/Algorithms/DualSimplex.cs:54-57 | every row loses its last entry in the caller's array |
| ListDualSimplex.FormulateRows | ThirdYearLP_IP_Solver/Algorithms/DualSimplex.cs:43-57 | the caller's rows become their formulated form |
| ListDualSimplex.BuildFormulationTable | ThirdYearLP_IP_Solver/Algorithms/DualSimplex.cs:85-114 | the loops build the first table |
| ListDualSimplex.FormulationTableIs | ThirdYearLP_IP_Solver/Algorithms/DualSimplex.cs:92-112 | a table with the objective row and each constraint row with its slack 1 is the first table |
| ListDualSimplex.PivotedCopy | ThirdYearLP_IP_Solver/Algorithms/DualSimplex.cs:163-195 | the pivoted table is built in fresh rows; the input table is unchanged (also lines 260-276) |
| ListDualSimplex.RatioRow | ThirdYearLP_IP_Solver/Algorithms/DualSimplex.cs:126-147 | the ratio row of the dual pivot |
| ListDualSimplex.RatioColumn | ThirdYearLP_IP_Solver/Algorithms/DualSimplex.cs:226-232 | the ratio column of the primal pivot |
| ListDualSimplex.ReadChangingVars | ThirdYearLP_IP_Solver/Algorithms/DualSimplex.cs:475-503 | the loops compute the decision values, emptied when an IndexOf fails |
| ListDualSimplex.DualSimplex.constructor | ThirdYearLP_IP_Solver/Algorithms/DualSimplex.cs:21-28 | the pivot records, the header and the phase tags start empty |
| ListDualSimplex.DualSimplex.AppendNames | ThirdYearLP_IP_Solver/Algorithms/DualSimplex.cs:61-81 | one header loop appends its names; nothing else changes |
| ListDualSimplex.DualSimplex.AppendHeader | ThirdYearLP_IP_Solver/Algorithms/DualSimplex.cs:59-83 | the header grows by x1..xn, e1..ek, s(k+1)..s(k+s) and "rhs"; nothing else changes |
| ListDualSimplex.DualSimplex.DoFormulationOperation | ThirdYearLP_IP_Solver/Algorithms/DualSimplex.cs:30-115 | the caller's rows are formulated, the header grows, the first table is returned; the pivot records are unchanged |
| ListDualSimplex.DualSimplex.CountRowKinds | ThirdYearLP_IP_Solver/Algorithms/DualSimplex.cs:32-41 | the rows flagged 1 are counted as excess, all others as slack |
| ListDualSimplex.DualSimplex.DoDualPivotOperation | ThirdYearLP_IP_Solver/Algorithms/DualSimplex.cs:117-206 | with no dual pivot the input table comes back with no ratio row and the records unchanged; otherwise the pivoted table, its ratio row, and (col, row) appended to the records |
| ListDualSimplex.DualSimplex.DoPrimalPivotOperation | ThirdYearLP_IP_Solver/Algorithms/DualSimplex.cs:208-287 | with no primal pivot no table and the records unchanged; otherwise the pivoted table, its ratio column, and (col, row) appended to the records |
| ListDualSimplex.DualSimplex.GetInput | ThirdYearLP_IP_Solver/Algorithms/DualSimplex.cs:289-295 | the counts of rows typed 1 or 2 and of the others, and the formulation |
| ListDualSimplex.DualSimplex.DualIteration | ThirdYearLP_IP_Solver/Algorithms/DualSimplex.cs:323-351 | one pass of the phase-1 loop: stop with the reason, or the next table with its pivot recorded |
| ListDualSimplex.DualSimplex.RunDualPhase | ThirdYearLP_IP_Solver/Algorithms/DualSimplex.cs:313-352 | the loop computes phase 1; the records grow by its pivots and a phase tag 0 each |
| ListDualSimplex.DualSimplex.PrimalIteration | ThirdYearLP_IP_Solver/Algorithms/DualSimplex.cs:377-399 | one pass of the phase-2 loop: stop with the reason, or the next table with its pivot recorded |
| ListDualSimplex.DualSimplex.RunPrimalPhase | ThirdYearLP_IP_Solver/Algorithms/DualSimplex.cs:354-400 | the loop computes phase 2; the records grow by its pivots and a phase tag 1 each |
| ListDualSimplex.DualSimplex.ReadResult | ThirdYearLP_IP_Solver/Algorithms/DualSimplex.cs:462-514 | the result read off the history |
| ListDualSimplex.DualSimplex.DoDualSimplex | ThirdYearLP_IP_Solver/Algorithms/DualSimplex.cs:297-515 | the caller's rows are formulated; a given table replaces the first one, resetting the records and dropping the last header name; the result and the records are those of the run, whose properties DualSimplexRunSpec states |
| ListDualSimplex.DualSimplex.StartTable | ThirdYearLP_IP_Solver/Algorithms/DualSimplex.cs:299-311 | the first table: the formulation, or the caller's table with the records reset and the last header name dropped |
| ListDualSimplex.DualSimplex.RunFrom | ThirdYearLP_IP_Solver/Algorithms/DualSimplex.cs:313-514 | both phases and the reading of the result from a first table |
| ListDualSimplex.DualSimplex.FinishPrimal | ThirdYearLP_IP_Solver/Algorithms/DualSimplex.cs:403-411 | a last table with a negative last-column value is dropped with its pivot record, then the result is read (also lines 462-514) |
| RevisedMatrix.Transposed | ThirdYearLP_IP_Solver/Algorithms/RevisedSimplex.cs:346-363 | the transpose of a matrix has one row per used column and one entry per row of the matrix |
| RevisedMatrix.Product | ThirdYearLP_IP_Solver/Algorithms/RevisedSimplex.cs:365-392 | the product has the rows of A and the used columns of B |
| RevisedMatrix.TransposeTwice | ThirdYearLP_IP_Solver/Algorithms/RevisedSimplex.cs:346-363 | transposing a rectangular matrix twice gives it back |
| RevisedMatrix.DotIdentityRow | ThirdYearLP_IP_Solver/Algorithms/RevisedSimplex.cs:394-407 | an identity row picks out one row of the other factor |
| RevisedMatrix.DotIdentityColumn | ThirdYearLP_IP_Solver/Algorithms/RevisedSimplex.cs:394-407 | an identity column picks out one entry of the row |
| RevisedMatrix.ProductIdentity | ThirdYearLP_IP_Solver/Algorithms/RevisedSimplex.cs:365-407 | the identity is neutral on both sides of the product |
| RevisedMatrix.MatTranspose | ThirdYearLP_IP_Solver/Algorithms/RevisedSimplex.cs:346-363 | the transpose of the matrix on its first row's width; an empty matrix or a row shorter than the first fails with an index error, exactly then |
| RevisedMatrix.MatMultiply | ThirdYearLP_IP_Solver/Algorithms/RevisedSimplex.cs:365-392 | the product when the columns of A match the rows of B; an empty factor fails with an index error, mismatched dimensions with the ArgumentException, short rows with an index error; the product has |A| rows of |B[0]| entries |
| RevisedMatrix.RowsReach | ThirdYearLP_IP_Solver/Algorithms/RevisedSimplex.cs:357 | the rows all reach the width an index loop reads, exactly when it says so (also line 384) |
| RevisedMatrix.MatIdentity | ThirdYearLP_IP_Solver/Algorithms/RevisedSimplex.cs:394-407 | n x n with 1 exactly on the diagonal |
| RevisedMatrix.MatFromColVector | ThirdYearLP_IP_Solver/Algorithms/RevisedSimplex.cs:483-491 | one single-entry row per element, in order |
| RevisedInverse.Scaled | ThirdYearLP_IP_Solver/Algorithms/RevisedSimplex.cs:454-457 | the pivot row divided entry by entry |
| RevisedInverse.Minus | ThirdYearLP_IP_Solver/Algorithms/RevisedSimplex.cs:464-468 | a row minus a multiple of the pivot row, entry by entry |
| RevisedInverse.DotScaled | ThirdYearLP_IP_Solver/Algorithms/RevisedSimplex.cs:454-457 | dividing a row divides its products |
| RevisedInverse.DotMinus | ThirdYearLP_IP_Solver/Algorithms/RevisedSimplex.cs:464-468 | subtracting rows subtracts their products |
| RevisedInverse.TracksInit | ThirdYearLP_IP_Solver/Algorithms/RevisedSimplex.cs:417-426 | every row of [A \| I] is A's combination given by its right half |
| RevisedInverse.TracksScaled | ThirdYearLP_IP_Solver/Algorithms/RevisedSimplex.cs:454-457 | normalising a row keeps it A's combination given by its right half |
| RevisedInverse.TracksMinus | ThirdYearLP_IP_Solver/Algorithms/RevisedSimplex.cs:460-470 | eliminating a row keeps it A's combination given by its right half |
| RevisedInverse.MinusSlice | ThirdYearLP_IP_Solver/Algorithms/RevisedSimplex.cs:465-468 | elimination acts on the right half on its own |
| RevisedInverse.LeftInverse | ThirdYearLP_IP_Solver/Algorithms/RevisedSimplex.cs:473-480 | once the left half is the identity, the right halves R satisfy R * A = I |
| RevisedInverse.NormalizeRow | ThirdYearLP_IP_Solver/Algorithms/RevisedSimplex.cs:453-457 | only the pivot row changes, divided by the pivot |
| RevisedInverse.EliminateRow | ThirdYearLP_IP_Solver/Algorithms/RevisedSimplex.cs:459-469 | only row r changes, minus factor times the pivot row |
| RevisedInverse.MatInverse | ThirdYearLP_IP_Solver/Algorithms/RevisedSimplex.cs:409-481 | an empty matrix fails with an index error and a non-square one with the ArgumentException, exactly then; a result is an n x n matrix R with R * A = I |
| RevisedInverse.PivotColumn | ThirdYearLP_IP_Solver/Algorithms/RevisedSimplex.cs:453-470 | after pivoting on column i the first i + 1 columns of the left half are those of the identity, every row still tracking A |
| RevisedTransform.Width | ThirdYearLP_IP_Solver/Algorithms/RevisedSimplex.cs:63-160 | newVarIndex after k variables is at least k |
| RevisedTransform.WidthCountsFree | ThirdYearLP_IP_Solver/Algorithms/RevisedSimplex.cs:85 | newVarIndex is the number of variables plus the number of free ones (also lines 103, 122, 139, 157) |
| RevisedTransform.WidthMonotone | ThirdYearLP_IP_Solver/Algorithms/RevisedSimplex.cs:85 | newVarIndex only grows, each variable taking its own columns (also lines 103, 122, 139, 157) |
| RevisedTransform.Records | ThirdYearLP_IP_Solver/Algorithms/RevisedSimplex.cs:73 | one record per variable, in order (also lines 91, 110, 128, 145) |
| RevisedTransform.RecordsIndices | ThirdYearLP_IP_Solver/Algorithms/RevisedSimplex.cs:73 | record i is for variable i, its column is below the final newVarIndex, and only a free variable has a negative-part column, the one after its own (also lines 91, 110, 128, 145) |
| RevisedTransform.Part | ThirdYearLP_IP_Solver/Algorithms/RevisedSimplex.cs:72 | a variable contributes one coefficient, two for a free one (also lines 90, 108-109, 127, 144) |
| RevisedTransform.Substituted | ThirdYearLP_IP_Solver/Algorithms/RevisedSimplex.cs:66-160 | the substituted coefficients fill exactly newVarIndex columns |
| RevisedTransform.TransformedRow | ThirdYearLP_IP_Solver/Algorithms/RevisedSimplex.cs:163-172 | a transformed constraint row has newVarIndex coefficients, then the RHS and the type |
| RevisedTransform.TransformedRows | ThirdYearLP_IP_Solver/Algorithms/RevisedSimplex.cs:163-172 | every original row transformed, in order |
| RevisedTransform.BinaryIndices | ThirdYearLP_IP_Solver/Algorithms/RevisedSimplex.cs:146 | every binary column lies below newVarIndex |
| RevisedTransform.BinaryRow | ThirdYearLP_IP_Solver/Algorithms/RevisedSimplex.cs:176-194 | a binary row has newVarIndex coefficients, then the RHS and the type |
| RevisedTransform.BinaryRows | ThirdYearLP_IP_Solver/Algorithms/RevisedSimplex.cs:176-194 | one binary row per binary column, in order |
| RevisedTransform.BinaryRowSelects | ThirdYearLP_IP_Solver/Algorithms/RevisedSimplex.cs:181-187 | the left-hand side of a binary row is the value of its column |
| RevisedTransform.BinaryRowBound | ThirdYearLP_IP_Solver/Algorithms/RevisedSimplex.cs:174-194 | the binary row of a binary variable holds for the lifted solution exactly when the variable is at most 1 |
| RevisedTransform.LiftPart | ThirdYearLP_IP_Solver/Algorithms/RevisedSimplex.cs:89 | the values of a variable's transformed columns (also line 107) |
| RevisedTransform.Lift | ThirdYearLP_IP_Solver/Algorithms/RevisedSimplex.cs:66-160 | the transformed solution fills newVarIndex columns |
| RevisedTransform.LiftNonNegative | ThirdYearLP_IP_Solver/Algorithms/RevisedSimplex.cs:70-158 | a solution meeting its sign restrictions lifts to a non-negative solution |
| RevisedTransform.SubstitutionPreservesValue | ThirdYearLP_IP_Solver/Algorithms/RevisedSimplex.cs:66-160 | the substituted coefficients give the lifted solution the value the original coefficients give the original solution |
| RevisedTransform.PartValue | ThirdYearLP_IP_Solver/Algorithms/RevisedSimplex.cs:89 | one coefficient's columns contribute c * x, whatever the sign (also line 107) |
| RevisedTransform.MaxOriginal | ThirdYearLP_IP_Solver/Algorithms/RevisedSimplex.cs:204 | the Max of the original indices is one of them and bounds them all |
| RevisedTransform.ApplyOne | ThirdYearLP_IP_Solver/Algorithms/RevisedSimplex.cs:209-240 | a record writes only into the original solution's own entries |
| RevisedTransform.ApplyAll | ThirdYearLP_IP_Solver/Algorithms/RevisedSimplex.cs:209-240 | applying the records keeps the length of the solution |
| RevisedTransform.Zeros | ThirdYearLP_IP_Solver/Algorithms/RevisedSimplex.cs:203-207 | n zeros |
| RevisedTransform.SolutionBack | ThirdYearLP_IP_Solver/Algorithms/RevisedSimplex.cs:199-243 | fails exactly when there are no records (the Max of an empty sequence); otherwise one value per original index up to the largest |
| RevisedTransform.LiftAt | ThirdYearLP_IP_Solver/Algorithms/RevisedSimplex.cs:66-160 | where a variable's transformed columns sit in the lifted solution |
| RevisedTransform.RecordRestores | ThirdYearLP_IP_Solver/Algorithms/RevisedSimplex.cs:209-240 | each record restores its own variable from the lifted solution |
| RevisedTransform.ApplyRecordsPrefix | ThirdYearLP_IP_Solver/Algorithms/RevisedSimplex.cs:209-240 | the records of the first k variables restore the first k values |
| RevisedTransform.WriteNext | ThirdYearLP_IP_Solver/Algorithms/RevisedSimplex.cs:218 | writing the next value extends the restored prefix by one (also lines 225, 234) |
| RevisedTransform.SolutionBackRoundTrip | ThirdYearLP_IP_Solver/Algorithms/RevisedSimplex.cs:56-243 | transforming back the lift of a solution gives the solution itself |
| RevisedBasis.FirstUnitRow | ThirdYearLP_IP_Solver/Algorithms/RevisedSimplex.cs:761-782 | the first row at or after a start where the column is a unit column, and None exactly when there is none |
| RevisedBasis.UnitRowUnique | ThirdYearLP_IP_Solver/Algorithms/RevisedSimplex.cs:761-782 | a column is a unit column in at most one row |
| RevisedBasis.ColumnValueSpec | ThirdYearLP_IP_Solver/Algorithms/RevisedSimplex.cs:757-785 | a column's value is the RHS of its unit row, and 0 without one |
| RevisedBasis.ExtractedAt | ThirdYearLP_IP_Solver/Algorithms/RevisedSimplex.cs:748-789 | one value per column not headed "Z", each the value of its column |
| RevisedBasis.ExtractedLength | ThirdYearLP_IP_Solver/Algorithms/RevisedSimplex.cs:753-755 | as many values as columns not headed "Z" |
| RevisedBasis.SpotsBelow | ThirdYearLP_IP_Solver/Algorithms/RevisedSimplex.cs:548-564 | the spots are increasing columns below the width |
| RevisedBasis.SpotsBelowSpec | ThirdYearLP_IP_Solver/Algorithms/RevisedSimplex.cs:548-564 | a column is a spot exactly when its entries sum to 1, up to the tolerance |
| RevisedBasis.OneKey | ThirdYearLP_IP_Solver/Algorithms/RevisedSimplex.cs:585-586 | the key of a column is the row of its first exact 1, or its length without one |
| RevisedBasis.Insert | ThirdYearLP_IP_Solver/Algorithms/RevisedSimplex.cs:583-587 | inserting one spot adds exactly it |
| RevisedBasis.OrderByKey | ThirdYearLP_IP_Solver/Algorithms/RevisedSimplex.cs:583-587 | the sort is a permutation |
| RevisedBasis.OrderByKeySorted | ThirdYearLP_IP_Solver/Algorithms/RevisedSimplex.cs:583-587 | spots arriving in increasing order are sorted by key, ties kept in column order (a stable sort) |
| RevisedBasis.Zipped | ThirdYearLP_IP_Solver/Algorithms/RevisedSimplex.cs:582 | one pair per spot |
| RevisedBasis.ZippedSpec | ThirdYearLP_IP_Solver/Algorithms/RevisedSimplex.cs:566-582 | the zipped pairs are exactly the basic spots with their columns, in increasing order |
| RevisedBasis.SortedSpotsSpec | ThirdYearLP_IP_Solver/Algorithms/RevisedSimplex.cs:548-590 | the sorted spots are exactly the columns summing to 1, each once with its column, in key order |
| RevisedBasis.SpotsDistinct | ThirdYearLP_IP_Solver/Algorithms/RevisedSimplex.cs:582-590 | sorted basic spots never repeat a column |
| RevisedBasis.SortedSpots | ThirdYearLP_IP_Solver/Algorithms/RevisedSimplex.cs:590 | the reordered spots lie below the width |
| RevisedBasis.CostsOfBasis | ThirdYearLP_IP_Solver/Algorithms/RevisedSimplex.cs:593-597 | one cost per spot |
| RevisedBasis.BasisRows | ThirdYearLP_IP_Solver/Algorithms/RevisedSimplex.cs:604-613 | one row per spot with one entry per constraint row |
| RevisedSimplex.CopyColumn | ThirdYearLP_IP_Solver/Algorithms/RevisedSimplex.cs:76-84 | every row gets the variable's coefficient, or its negation, as its next entry (also lines 94-102, 130-138, 148-156) |
| RevisedSimplex.SplitColumn | ThirdYearLP_IP_Solver/Algorithms/RevisedSimplex.cs:113-121 | every row gets the free variable's coefficient and its negation as its next two entries |
| RevisedSimplex.AppendRhsAndType | ThirdYearLP_IP_Solver/Algorithms/RevisedSimplex.cs:163-172 | every row gets its original RHS and type appended |
| RevisedSimplex.AppendBinaryRows | ThirdYearLP_IP_Solver/Algorithms/RevisedSimplex.cs:174-194 | the binary rows appended after the others, in order |
| RevisedSimplex.BasisOfFormulationTable | ThirdYearLP_IP_Solver/Algorithms/RevisedSimplex.cs:593-613 | on the first dual-simplex table a decision spot costs its objective coefficient and a slack spot 0, and slack spot n + k has the k-th unit row in matB |
| RevisedSimplex.RevisedPrimalSimplex.constructor | ThirdYearLP_IP_Solver/Algorithms/RevisedSimplex.cs:44-54 | the placeholder problem, the console flag, and no records |
| RevisedSimplex.RevisedPrimalSimplex.TransformVariableSignRestrictions | ThirdYearLP_IP_Solver/Algorithms/RevisedSimplex.cs:56-197 | the records are refilled, one per variable; the objective and rows are the substitution, the binary rows follow the originals; the other fields are unchanged |
| RevisedSimplex.RevisedPrimalSimplex.SubstituteAll | ThirdYearLP_IP_Solver/Algorithms/RevisedSimplex.cs:59-160 | the loop over the variables computes the substitution, the binary columns, newVarIndex and the records |
| RevisedSimplex.RevisedPrimalSimplex.SubstituteVariable | ThirdYearLP_IP_Solver/Algorithms/RevisedSimplex.cs:68-159 | one case of the sign switch: the variable's coefficients, its record, the binary column, and the next free column |
| RevisedSimplex.RevisedPrimalSimplex.TransformSolutionBack | ThirdYearLP_IP_Solver/Algorithms/RevisedSimplex.cs:199-243 | the original solution by the records, failing when there are none |
| RevisedSimplex.RevisedPrimalSimplex.DoFormulationOperation | ThirdYearLP_IP_Solver/Algorithms/RevisedSimplex.cs:275-344 | the caller's rows are formulated in place and the first dual-simplex table returned |
| RevisedSimplex.RevisedPrimalSimplex.ExtractSolution | ThirdYearLP_IP_Solver/Algorithms/RevisedSimplex.cs:748-789 | the value of every column but the last, "Z" columns skipped |
| RevisedSimplex.RevisedPrimalSimplex.BasicValue | ThirdYearLP_IP_Solver/Algorithms/RevisedSimplex.cs:758-783 | the value of a column, by its first unit row |
| RevisedSimplex.RevisedPrimalSimplex.OnlyEntry | ThirdYearLP_IP_Solver/Algorithms/RevisedSimplex.cs:766-774 | whether every other row is 0 in the column, up to the tolerance |
| RevisedSimplex.RevisedPrimalSimplex.BasisOfTableaus | ThirdYearLP_IP_Solver/Algorithms/RevisedSimplex.cs:547-613 | the sorted basic spots of the last tableau, their costs and matB from the first tableau |
| RevisedSimplex.RevisedPrimalSimplex.BasicVarSpots | ThirdYearLP_IP_Solver/Algorithms/RevisedSimplex.cs:548-564 | the columns of the last tableau summing to 1, in order |
| RevisedSimplex.RevisedPrimalSimplex.BasicVarCols | ThirdYearLP_IP_Solver/Algorithms/RevisedSimplex.cs:566-579 | the columns at the spots, in order |
| RevisedSimplex.RevisedPrimalSimplex.CostVector | ThirdYearLP_IP_Solver/Algorithms/RevisedSimplex.cs:593-597 | cbv[i] is the negated objective-row entry of the first tableau at spot i |
| RevisedSimplex.RevisedPrimalSimplex.BasisMatrix | ThirdYearLP_IP_Solver/Algorithms/RevisedSimplex.cs:604-613 | matB[i] is the column at spot i in the first tableau's constraint rows |
| SimplexTableSpec.Blank | ThirdYearLP_IP_Solver/Algorithms/SimplexTable.cs:23-33 | a new table has the requested numbers of rows and columns, empty names and zeros |
| SimplexTableSpec.SlackIndex | ThirdYearLP_IP_Solver/Algorithms/SimplexTable.cs:59-107 | slackIndex at a row counts the slack rows before it, so never more than the rows before it |
| SimplexTableSpec.VariableNames | ThirdYearLP_IP_Solver/Algorithms/SimplexTable.cs:45-56 | one name per decision and slack column |
| SimplexTableSpec.ConstraintRow | ThirdYearLP_IP_Solver/Algorithms/SimplexTable.cs:74-98 | one coefficient per column |
| SimplexTableSpec.ObjectiveOf | ThirdYearLP_IP_Solver/Algorithms/SimplexTable.cs:109-128 | one objective entry per column |
| SimplexTableSpec.InitialTab | ThirdYearLP_IP_Solver/Algorithms/SimplexTable.cs:36-131 | the built table has one row per constraint and one column per decision or slack variable |
| SimplexTableSpec.InitialTabRows | ThirdYearLP_IP_Solver/Algorithms/SimplexTable.cs:60-107 | row q holds its basic name, its padded coefficients with the slack 1 at its slack index, and its RHS |
| SimplexTableSpec.FilledRowsAreInitial | ThirdYearLP_IP_Solver/Algorithms/SimplexTable.cs:60-107 | the names and RHS written row by row are those of the built table |
| SimplexTableSpec.SlackIndexIncreases | ThirdYearLP_IP_Solver/Algorithms/SimplexTable.cs:103-106 | a later row sees a larger slackIndex than an earlier slack row |
| SimplexTableSpec.SlackIndexDistinct | ThirdYearLP_IP_Solver/Algorithms/SimplexTable.cs:90-92 | distinct slack rows get distinct slack columns (also lines 103-106) |
| SimplexTableSpec.InitialSlackColumn | ThirdYearLP_IP_Solver/Algorithms/SimplexTable.cs:65-98 | a slack row's basic variable names its slack column, which is 1 in that row and 0 elsewhere, the objective row included |
| SimplexTableSpec.VariableNameAt | ThirdYearLP_IP_Solver/Algorithms/SimplexTable.cs:46-56 | column j is x(j+1) among the decision columns and s(j-n+1) among the slacks |
| SimplexTableSpec.OrderedNamesDiffer | ThirdYearLP_IP_Solver/Algorithms/SimplexTable.cs:46-56 | the names of two columns a < b differ |
| SimplexTableSpec.VariableNamesDistinct | ThirdYearLP_IP_Solver/Algorithms/SimplexTable.cs:46-56 | all column names are different |
| SimplexTableSpec.BasicNamesDistinct | ThirdYearLP_IP_Solver/Algorithms/SimplexTable.cs:65-72 | different rows get different basic names, slack or artificial |
| SimplexTableSpec.InitialBasicDistinct | ThirdYearLP_IP_Solver/Algorithms/SimplexTable.cs:65-72 | no two rows of the built table share a basic variable |
| SimplexTableSpec.InitialOptimalIff | ThirdYearLP_IP_Solver/Algorithms/SimplexTable.cs:109-128 | the built table is optimal exactly when no objective coefficient exceeds 1e-10, for max and min alike (also lines 228-240) |
| SimplexTableSpec.EnteringUnlessOptimal | ThirdYearLP_IP_Solver/Algorithms/SimplexTable.cs:242-274 | an entering column exists only when the table is not optimal |
| SimplexTableSpec.EnteringColumnUnique | ThirdYearLP_IP_Solver/Algorithms/SimplexTable.cs:244-272 | the entering rule picks one column |
| SimplexTableSpec.LeavingRowUnique | ThirdYearLP_IP_Solver/Algorithms/SimplexTable.cs:276-291 | the ratio test picks one row |
| SimplexTableSpec.PivotChoiceExcludes | ThirdYearLP_IP_Solver/Algorithms/SimplexTable.cs:274 | a pivot exists only when the table is neither optimal nor blocked (also lines 293-299) |
| SimplexTableSpec.PivotChoiceIsSafe | ThirdYearLP_IP_Solver/Algorithms/SimplexTable.cs:282 | the chosen pivot is in range and above 1e-10, so the pivot's exception is unreachable from the iteration (also lines 344-348) |
| SimplexTableSpec.DividedBy | ThirdYearLP_IP_Solver/Algorithms/SimplexTable.cs:350-355 | a row divided entry by entry |
| SimplexTableSpec.RowLess | ThirdYearLP_IP_Solver/Algorithms/SimplexTable.cs:362-368 | a row minus a multiple of another, entry by entry (also lines 373-378) |
| SimplexTableSpec.PivotedData | ThirdYearLP_IP_Solver/Algorithms/SimplexTable.cs:350-370 | the pivot row divided by the pivot, every other row minus its column-c entry times the new pivot row |
| SimplexTableSpec.PivotedRhs | ThirdYearLP_IP_Solver/Algorithms/SimplexTable.cs:355 | the RHS by the same row operations (also line 368) |
| SimplexTableSpec.PivotRow | ThirdYearLP_IP_Solver/Algorithms/SimplexTable.cs:350-354 | the new pivot row has one entry per column |
| SimplexTableSpec.PivotTab | ThirdYearLP_IP_Solver/Algorithms/SimplexTable.cs:329-381 | the pivoted table keeps the shape and the column names |
| SimplexTableSpec.PivotMakesUnitColumn | ThirdYearLP_IP_Solver/Algorithms/SimplexTable.cs:340 | after the pivot column c is 1 in the pivot row and 0 in every other row and in the objective row, and the pivot row's basic variable is the entering one (also lines 350-378) |
| SimplexTableSpec.PivotKeepsUnitColumn | ThirdYearLP_IP_Solver/Algorithms/SimplexTable.cs:350-378 | a unit column of another row survives the pivot |
| SimplexTableSpec.CanonicalBasicDistinct | ThirdYearLP_IP_Solver/Algorithms/SimplexTable.cs:209-397 | in canonical form no two rows share a basic variable |
| SimplexTableSpec.PivotKeepsCanonical | ThirdYearLP_IP_Solver/Algorithms/SimplexTable.cs:329-381 | a pivot keeps the table canonical |
| SimplexTableSpec.InitialCanonical | ThirdYearLP_IP_Solver/Algorithms/SimplexTable.cs:36-131 | the built table is canonical when every constraint has its own slack column |
| SimplexTableSpec.DistinctIndexOf | ThirdYearLP_IP_Solver/Algorithms/SimplexTable.cs:340 | with distinct names a column's name leads back to that column |
| SimplexTableSpec.ChainCanonical | ThirdYearLP_IP_Solver/Algorithms/SimplexTable.cs:302-397 | every table of a run from a canonical table with distinct names is canonical and keeps the names |
| SimplexTableSpec.ChainSnoc | ThirdYearLP_IP_Solver/Algorithms/SimplexTable.cs:320-324 | a run extended by one more step is a run |
| SimplexTableSpec.ChainTailSnoc | ThirdYearLP_IP_Solver/Algorithms/SimplexTable.cs:388-391 | appending a step keeps the earlier history and the run from the starting table |
| SimplexTableSpec.Zeroed | ThirdYearLP_IP_Solver/Algorithms/SimplexTable.cs:181-185 | every variable mapped to 0 |
| SimplexTableSpec.ZeroedSnoc | ThirdYearLP_IP_Solver/Algorithms/SimplexTable.cs:182-185 | one more variable set to 0 |
| SimplexTableSpec.Assigned | ThirdYearLP_IP_Solver/Algorithms/SimplexTable.cs:188-191 | the assignments add exactly the names assigned |
| SimplexTableSpec.AssignedLast | ThirdYearLP_IP_Solver/Algorithms/SimplexTable.cs:188-191 | the last assignment to a name decides its value |
| SimplexTableSpec.AssignedUntouched | ThirdYearLP_IP_Solver/Algorithms/SimplexTable.cs:188-191 | a name never assigned keeps its value |
| SimplexTableSpec.SolutionValuesSpec | ThirdYearLP_IP_Solver/Algorithms/SimplexTable.cs:177-194 | the solution holds exactly the variable and basic names; a basic name gets the RHS of the last row naming it, every other variable 0 |
| SimplexTableSpec.CanonicalSolution | ThirdYearLP_IP_Solver/Algorithms/SimplexTable.cs:177-194 | in canonical form each basic variable's value is its row's RHS |
| SimplexTables.SimplexTable.constructor | ThirdYearLP_IP_Solver/Algorithms/SimplexTable.cs:23-33 | the blank table of the requested size, iteration 0, not optimal, status "Not Optimal" |
| SimplexTables.SimplexTable.CreateFromLPProblem | ThirdYearLP_IP_Solver/Algorithms/SimplexTable.cs:36-131 | a fresh table holding the built table, iteration 0 and not optimal |
| SimplexTables.SimplexTable.GetSolutionValues | ThirdYearLP_IP_Solver/Algorithms/SimplexTable.cs:177-194 | the solution of the table's contents |
| SimplexTables.FillNames | ThirdYearLP_IP_Solver/Algorithms/SimplexTable.cs:45-56 | the array holds x1..xn, then s1..sk |
| SimplexTables.FillRow | ThirdYearLP_IP_Solver/Algorithms/SimplexTable.cs:74-98 | row i holds the constraint row; the other rows are unchanged |
| SimplexTables.FillRows | ThirdYearLP_IP_Solver/Algorithms/SimplexTable.cs:58-107 | the basic names, the rows and the RHS are those of the built table |
| SimplexTables.FillConstraint | ThirdYearLP_IP_Solver/Algorithms/SimplexTable.cs:62-106 | row i's basic name, coefficients and RHS; nothing else changes |
| SimplexTables.FillObjective | ThirdYearLP_IP_Solver/Algorithms/SimplexTable.cs:109-128 | the objective row of the built table |
| SimplexTables.CopyNames | ThirdYearLP_IP_Solver/Algorithms/SimplexTable.cs:336-337 | the destination holds the source's names |
| SimplexTables.PivotRows | ThirdYearLP_IP_Solver/Algorithms/SimplexTable.cs:350-370 | the new rows and RHS are the pivoted ones |
| SimplexTables.PivotRowsDone | ThirdYearLP_IP_Solver/Algorithms/SimplexTable.cs:350-370 | the entrywise results of the loops are the pivoted rows and RHS |
| SimplexTables.DividePivotRow | ThirdYearLP_IP_Solver/Algorithms/SimplexTable.cs:350-355 | the new pivot row and RHS are the old ones divided by the pivot |
| SimplexTables.EliminateInto | ThirdYearLP_IP_Solver/Algorithms/SimplexTable.cs:358-369 | row i of the new table is the old one minus the multiplier times the new pivot row; nothing else changes |
| SimplexTables.PivotObjective | ThirdYearLP_IP_Solver/Algorithms/SimplexTable.cs:372-378 | the new objective row is the old one minus its column-c entry times the new pivot row |
| SimplexTables.SimplexSolver.constructor | ThirdYearLP_IP_Solver/Algorithms/SimplexTable.cs:215-218 | no iterations and no table yet |
| SimplexTables.SimplexSolver.Initialize | ThirdYearLP_IP_Solver/Algorithms/SimplexTable.cs:220-226 | the problem is kept and the built table, iteration 0, is appended as current |
| SimplexTables.SimplexSolver.IsOptimal | ThirdYearLP_IP_Solver/Algorithms/SimplexTable.cs:228-240 | every objective entry is at least -1e-10 for max, at most 1e-10 for min |
| SimplexTables.SimplexSolver.FindPivotElement | ThirdYearLP_IP_Solver/Algorithms/SimplexTable.cs:242-300 | (-1, -1) together, and only when the table is optimal or blocked; otherwise the most negative (max) or most positive (min) objective column beyond 1e-10 and the first row of least non-negative ratio among entries above 1e-10 |
| SimplexTables.SimplexSolver.PerformIteration | ThirdYearLP_IP_Solver/Algorithms/SimplexTable.cs:302-327 | an optimal table is marked optimal; a blocked one is marked "Unbounded or No Solution"; otherwise the pivoted table, numbered one past the current, is appended and becomes current |
| SimplexTables.SimplexSolver.PivotOn | ThirdYearLP_IP_Solver/Algorithms/SimplexTable.cs:319-326 | the pivot branch of the iteration |
| SimplexTables.SimplexSolver.PerformPivotOperation | ThirdYearLP_IP_Solver/Algorithms/SimplexTable.cs:329-381 | a fresh table holding the pivot of the current table, or the exception when the pivot is below 1e-10 in magnitude, exactly then |
| SimplexTables.SimplexSolver.SolveToOptimal | ThirdYearLP_IP_Solver/Algorithms/SimplexTable.cs:383-397 | the history only grows, by at most 1001 tables, each a step of the run; below 1000 counted iterations the run ends optimal or blocked, at 1000 it is marked as possibly cycling |
| SimplexTables.SimplexSolver.RunIterations | ThirdYearLP_IP_Solver/Algorithms/SimplexTable.cs:386-391 | the loop counts the successful iterations below the cap |
| SimplexTables.SimplexSolver.Advance | ThirdYearLP_IP_Solver/Algorithms/SimplexTable.cs:388 | one iteration adds one table or stops |
| SimplexTables.EnteringIndex | ThirdYearLP_IP_Solver/Algorithms/SimplexTable.cs:244-272 | -1 only for an optimal row; otherwise the entering column |
| SimplexTables.LeavingIndex | ThirdYearLP_IP_Solver/Algorithms/SimplexTable.cs:276-291 | -1 only when no row passes the ratio test; otherwise the leaving row |
| BigMSpec.CanonizedObjective | ThirdYearLP_IP_Solver/Model/Simplex.cs:67-75 | the canonized objective is a maximisation whose value at every point is minus the original objective's value |
| BigMSpec.CanonizedTwice | ThirdYearLP_IP_Solver/Model/Simplex.cs:67-75 | canonizing twice gives the original coefficients and constant back |
| BigMSpec.FunctionArray | ThirdYearLP_IP_Solver/Model/Simplex.cs:78-86 | the objective array has one entry per matrix column: the objective coefficient where there is one, 0 beyond |
| BigMSpec.NormalizedSameSolutions | ThirdYearLP_IP_Solver/Model/Simplex.cs:92-108 | a normalised constraint has b >= 0, the same number of coefficients, and exactly the same solutions as the original (the sign swap for <= and >=, = kept) |
| BigMSpec.Columns | ThirdYearLP_IP_Solver/Model/Simplex.cs:111-119 | the matrix is column-major: column i, entry j is coefficient i of constraint j |
| BigMSpec.StandardColumns | ThirdYearLP_IP_Solver/Model/Simplex.cs:121-149 | the original columns followed by at most one slack column per constraint, every column one entry per row |
| BigMSpec.Scanned | ThirdYearLP_IP_Solver/Model/Simplex.cs:157-191 | the basic column found for a row is a unit vector of that row; when none is found no column is |
| BigMSpec.Uncovered | ThirdYearLP_IP_Solver/Model/Simplex.cs:200-214 | the rows that get an artificial column are rows of the problem for which no column is a unit vector |
| BigMSpec.UncoveredAt | ThirdYearLP_IP_Solver/Model/Simplex.cs:200-214 | every uncovered row gets an artificial column, in row order, right after those of the uncovered rows before it |
| BigMSpec.FullMatrix | ThirdYearLP_IP_Solver/Model/Simplex.cs:141-149 | the stored matrix has the standard columns and one more column per uncovered row, every column one entry per row (also lines 200-214) |
| BigMSpec.Flags | ThirdYearLP_IP_Solver/Model/Simplex.cs:194-214 | m has one flag per stored column, true exactly for the appended artificial columns |
| BigMSpec.RowBasisUnit | ThirdYearLP_IP_Solver/Model/Simplex.cs:152-214 | with the corrected basis every row's basic column lies in the matrix and is the unit vector of that row, and it is flagged artificial exactly when no standard column was a unit vector of that row |
| BigMSpec.RowBasisDistinct | ThirdYearLP_IP_Solver/Model/Simplex.cs:152-214 | different rows have different basic columns |
| BigMSpec.DiscoveryBasisMisaligned | ThirdYearLP_IP_Solver/Model/Simplex.cs:152-214 | for x1 + x2 >= 1, x1 + x2 <= 4 the basis as written gives row 0 the slack column of row 1, which is not a unit vector of row 0 |
| BigMSpec.DiscoveryBasisOverflows | ThirdYearLP_IP_Solver/Model/Simplex.cs:153 | for the single row x1 <= 3 two columns are unit vectors of row 0, so the basis as written writes past the end of C (also lines 185-189, 211) |
| BigMSpec.PricesVanishOnBasis | ThirdYearLP_IP_Solver/Model/Simplex.cs:253-277 | on a canonical basis every basic column has M entry 0, and F entry 0 unless it is artificial, where F is minus its objective coefficient |
| BigMSpec.MostNegativeUnique | ThirdYearLP_IP_Solver/Model/Simplex.cs:323-344 | the first admissible entry of largest magnitude is unique |
| BigMSpec.PivotedMatrix | ThirdYearLP_IP_Solver/Model/Simplex.cs:374-378 | after the pivot every column's pivot-row entry is divided by the pivot and every other entry has its column's new pivot-row entry times the entering column's entry subtracted; the shape is kept (also lines 395-410) |
| BigMSpec.PivotedB | ThirdYearLP_IP_Solver/Model/Simplex.cs:380-393 | the pivot row's right-hand side is divided by the pivot, every other one has the same multiple of it subtracted |
| BigMSpec.PivotMakesUnit | ThirdYearLP_IP_Solver/Model/Simplex.cs:368-414 | after the pivot the entering column is the unit vector of the pivot row |
| BigMSpec.PivotKeepsUnit | ThirdYearLP_IP_Solver/Model/Simplex.cs:395-410 | a column that was the unit vector of another row still is after the pivot |
| BigMSpec.PivotKeepsCanonical | ThirdYearLP_IP_Solver/Model/Simplex.cs:371 | with C[row] := col the basis stays canonical: every row's basic column is that row's unit vector (also lines 395-410) |
| BigMSpec.PivotKeepsNonNegative | ThirdYearLP_IP_Solver/Model/Simplex.cs:347-365 | a pivot on the row chosen by the corrected ratio test keeps every right-hand side non-negative (also lines 380-393) |
| BigMSpec.MinRatioBreaksFeasibility | ThirdYearLP_IP_Solver/Model/Simplex.cs:352 | with b = [0, 1] and column [1, 1] the ratio test as written chooses row 1 and the pivot makes b[0] = -1 (also line 390) |
| BigMSpec.Pivoted | ThirdYearLP_IP_Solver/Model/Simplex.cs:368-414 | the state after calculateSimplexTableau keeps the shape invariants of the model |
| BigMSpec.ChoiceExcludesEnds | ThirdYearLP_IP_Solver/Model/Simplex.cs:280-320 | when nextStep has a pivot to choose it answers neither Found nor Unbounded |
| BigMSpec.FoundExcludesUnbounded | ThirdYearLP_IP_Solver/Model/Simplex.cs:280-320 | Found and Unbounded exclude each other |
| BigMSpec.GoodAnyPhase | ThirdYearLP_IP_Solver/Model/Simplex.cs:284-287 | setting the phase flag does not affect the invariant (shape, canonical basis, non-negative b) |
| BigMSpec.StepKeepsGood | ThirdYearLP_IP_Solver/Model/Simplex.cs:280-320 | one round of GetResult's loop keeps the invariant, never clears isMDone, and leaves every basic column with M entry 0 (also lines 368-414) |
| BigMSpec.RunKeepsGood | ThirdYearLP_IP_Solver/Model/Simplex.cs:47-64 | every state of a run from a good state is good, and once isMDone is set it stays set |
| BigMSpec.RunSnoc | ThirdYearLP_IP_Solver/Model/Simplex.cs:55-61 | a run extended by one round is a run |
| BigMSpec.InitialParts | ThirdYearLP_IP_Solver/Model/Simplex.cs:22-44 | the state after the constructor is the corrected matrix, flags and basis, the padded objective, M from getMandF and F the negated objective |
| BigMSpec.InitialGood | ThirdYearLP_IP_Solver/Model/Simplex.cs:22-44 | the state after the constructor satisfies the invariant: a canonical basis and non-negative b (also lines 152-214) |
| BigMSimplex.NegateAll | ThirdYearLP_IP_Solver/Model/Simplex.cs:69-73 | the result is every entry negated (also lines 96-100) |
| BigMSimplex.NormalizeNegativeRhs | ThirdYearLP_IP_Solver/Model/Simplex.cs:92-108 | the caller's array is overwritten with every constraint normalised |
| BigMSimplex.ColumnMajor | ThirdYearLP_IP_Solver/Model/Simplex.cs:111-119 | the loop builds the column-major matrix |
| BigMSimplex.GetColumn | ThirdYearLP_IP_Solver/Model/Simplex.cs:243-251 | the column holds value at place and 0 elsewhere |
| BigMSimplex.AppendColumn | ThirdYearLP_IP_Solver/Model/Simplex.cs:221-230 | the result is the matrix with the column added at the end |
| BigMSimplex.Append | ThirdYearLP_IP_Solver/Model/Simplex.cs:232-241 | the result is the array with the element added at the end |
| BigMSimplex.SlackAppendix | ThirdYearLP_IP_Solver/Model/Simplex.cs:121-138 | the slack columns (+1 for <=, -1 for >=, none for =) and the right-hand sides |
| BigMSimplex.CombineColumns | ThirdYearLP_IP_Solver/Model/Simplex.cs:141-149 | the original columns followed by the slack columns |
| BigMSimplex.FindUnit | ThirdYearLP_IP_Solver/Model/Simplex.cs:159-183 | the inner scan says yes exactly for a unit vector (one 1, every other entry 0), and then gives the row of its 1 |
| BigMSimplex.ScanBasis | ThirdYearLP_IP_Solver/Model/Simplex.cs:152-191 | hasBasicVar marks exactly the rows some column is a unit vector of; C holds for each such row the last such column (corrected basis; as written: `BigMSpec.DiscoveryBasis`) |
| BigMSimplex.AddArtificials | ThirdYearLP_IP_Solver/Model/Simplex.cs:193-214 | the matrix, flags and basis after the artificial columns are added (corrected basis; as written: `BigMSpec.DiscoveryBasis`) |
| BigMSimplex.Simplex.constructor | ThirdYearLP_IP_Solver/Model/Simplex.cs:22-44 | a max objective is kept and a min one canonized; the caller's constraints are normalised; the state is the initial state and satisfies the invariant (corrected basis) |
| BigMSimplex.Simplex.Canonize | ThirdYearLP_IP_Solver/Model/Simplex.cs:67-75 | the result is the canonized objective |
| BigMSimplex.Simplex.GetFunctionArray | ThirdYearLP_IP_Solver/Model/Simplex.cs:78-86 | only functionVariables changes, to the padded objective |
| BigMSimplex.Simplex.GetMatrix | ThirdYearLP_IP_Solver/Model/Simplex.cs:89-218 | only matrix, m, C, b and the caller's constraints change: to the full matrix, the flags, the corrected basis and the right-hand sides of the normalised constraints |
| BigMSimplex.Simplex.GetMandF | ThirdYearLP_IP_Solver/Model/Simplex.cs:253-277 | only M and F change, to the prices of the current basis |
| BigMSimplex.Simplex.IndexOfMostNegative | ThirdYearLP_IP_Solver/Model/Simplex.cs:323-344 | -1 exactly when no entry is admissible (negative, and not artificial once isMDone); otherwise the first admissible entry of largest magnitude |
| BigMSimplex.Simplex.IndexOfMinimalRatio | ThirdYearLP_IP_Solver/Model/Simplex.cs:347-365 | -1 exactly when no row has a positive entry and b >= 0; otherwise the first such row of least ratio (corrected test) |
| BigMSimplex.Simplex.NextStep | ThirdYearLP_IP_Solver/Model/Simplex.cs:280-320 | only isMDone changes, and it is never cleared; NotYetFound comes with a pivot choice on the priced row; Found exactly when the M phase is over and F has no admissible negative entry; Unbounded exactly when the entering column has no leaving row (corrected ratio test) |
| BigMSimplex.Simplex.CalculateSimplexTableau | ThirdYearLP_IP_Solver/Model/Simplex.cs:368-414 | the new state is the pivoted state: C[row] := col, the pivoted matrix and b, and M and F of the new basis |
| BigMSimplex.Simplex.GetResult | ThirdYearLP_IP_Solver/Model/Simplex.cs:47-64 | the snapshots record a run that starts at the current state, one more snapshot than pivots and at most 101; NotYetFound only after 100 pivots; Found and Unbounded exactly as nextStep's last answer; the invariant still holds (corrected basis and ratio test) |
| BigMSimplex.Simplex.Snapshot | ThirdYearLP_IP_Solver/Model/Simplex.cs:50 | a snapshot in fresh arrays recording the current state (also line 58) |
| BigMSimplex.PivotRowEntries | ThirdYearLP_IP_Solver/Model/Simplex.cs:374-378 | newJRow is every column's pivot-row entry divided by the pivot |
| BigMSimplex.PivotRhs | ThirdYearLP_IP_Solver/Model/Simplex.cs:380-393 | newB is the pivoted right-hand side |
| BigMSimplex.PivotColumns | ThirdYearLP_IP_Solver/Model/Simplex.cs:395-410 | newMatrix is the pivoted matrix |
| SimplexSnaps.FValueNegated | ThirdYearLP_IP_Solver/Model/SimplexSnap.cs:34-38 | the objective value of a canonized (min) objective is minus the original objective's value |
| SimplexSnaps.Copy | ThirdYearLP_IP_Solver/Model/SimplexSnap.cs:42-50 | a fresh array with the same elements |
| SimplexSnaps.Copy2 | ThirdYearLP_IP_Solver/Model/SimplexSnap.cs:52-64 | a fresh array with as many rows as the input and the width of its first row, holding the input's entries |
| SimplexSnaps.ObjectiveValue | ThirdYearLP_IP_Solver/Model/SimplexSnap.cs:34-38 | fValue is the sum over the basis of fVars[C[i]] * b[i] |
| SimplexSnaps.SimplexSnap.constructor | ThirdYearLP_IP_Solver/Model/SimplexSnap.cs:21-39 | every stored array is fresh and equal to its argument element by element, fValue is the basis value, and for a rectangular matrix the snapshot records the state |
| BigMSpec.RowBasis | ThirdYearLP_IP_Solver/Model/Simplex.cs:152-214 | one basic column per row, the later unit column when a row has two and its artificial column when it has none (the corrected basis) |
| BigMSpec.InitialState | ThirdYearLP_IP_Solver/Model/Simplex.cs:22-44 | the state after the constructor is well shaped |
| BigMSimplex.Simplex.Start | ThirdYearLP_IP_Solver/Model/Simplex.cs:49-52 | the first snapshot records the current state, and nextStep's answer for it |
| BigMSimplex.Simplex.Round | ThirdYearLP_IP_Solver/Model/Simplex.cs:55-61 | one pass of the loop adds one state to the run and its snapshot to the list |
| BigMSimplex.Simplex.PivotAndRecord | ThirdYearLP_IP_Solver/Model/Simplex.cs:57-58 | the pivoted state extends the run and is recorded by a new snapshot |
| BigMSimplex.Simplex.Advance | ThirdYearLP_IP_Solver/Model/Simplex.cs:57 | the pivot on nextStep's choice is one step of the run and keeps the invariant (also lines 368-414) |
| ListDualSimplexSpec.CountExcess | ThirdYearLP_IP_Solver/Algorithms/DualSimplex.cs:32-41 | the excess rows are among the rows |
| ListDualSimplexSpec.CountFlagged | ThirdYearLP_IP_Solver/Algorithms/DualSimplex.cs:291-292 | the rows typed 1 or 2 are among the rows |
| ListDualSimplexSpec.HeaderPairDistinct | ThirdYearLP_IP_Solver/Algorithms/DualSimplex.cs:60-83 | two header columns never share a name |
| ListDualSimplexRun.Run | ThirdYearLP_IP_Solver/Algorithms/DualSimplex.cs:313-352 | a pivoting loop only adds tables (also lines 361-400) |
| Common.Floor | ThirdYearLP_IP_Solver/Algorithms/CuttingPlane.cs:30 | Math.Floor: an integer, and the greatest one not above x (also lines 72, 79) |
| Common.ToLower | ThirdYearLP_IP_Solver/Algorithms/SimplexTable.cs:114 | String.ToLower on ASCII letters: upper-case letters lowered, the rest kept (also lines 232, 247) |
| Common.MinOf | ThirdYearLP_IP_Solver/Algorithms/DualSimplex.cs:124 | Enumerable.Min: an element no greater than any other (also line 150) |
| Common.Filter | ThirdYearLP_IP_Solver/Algorithms/DualSimplex.cs:150 | Enumerable.Where: an element occurs in the result exactly when it occurs in the input and satisfies the predicate, and the result is no longer (also lines 217-218) |
| Common.FilterCounts | ThirdYearLP_IP_Solver/Algorithms/DualSimplex.cs:150 | each element satisfying the predicate is kept as many times as it occurs in the input, and no other is kept (also lines 217-218) |
| Common.FilterAppend | ThirdYearLP_IP_Solver/Algorithms/DualSimplex.cs:150 | filtering a concatenation is filtering each part and concatenating, so the kept elements stay in input order (also lines 217-218) |
| Common.NameDistinct | ThirdYearLP_IP_Solver/Algorithms/SimplexTable.cs:48 | names built from one prefix and different numbers differ (also line 55) |
| Common.NamePrefixesDiffer | ThirdYearLP_IP_Solver/Algorithms/SimplexTable.cs:48 | names with different one-letter prefixes differ (also lines 55, 71) |
| CuttingPlanes.Frac | ThirdYearLP_IP_Solver/Algorithms/CuttingPlane.cs:30 | the fractional part lies in [0, 1) and adds to the floor to give the value (also lines 72, 79-80) |
| CuttingPlanes.CandidatesExactly | ThirdYearLP_IP_Solver/Algorithms/CuttingPlane.cs:26-33 | the candidates are exactly the rows from 1 on (never the z-row) whose RHS has a fractional part above 1e-9, each with that part, in increasing row order |
| CuttingPlanes.NoCandidatesIff | ThirdYearLP_IP_Solver/Algorithms/CuttingPlane.cs:26-35 | there is no candidate exactly when no row from 1 on has a fractional part above 1e-9 |
| CuttingPlanes.ChooseFromClosest | ThirdYearLP_IP_Solver/Algorithms/CuttingPlane.cs:49-66 | on candidates in row order the fold returns the earliest candidate closest to 1/2 |
| CuttingPlanes.ChosenCandidate | ThirdYearLP_IP_Solver/Algorithms/CuttingPlane.cs:26-33 | the chosen row is a constraint row, its frac is its RHS's fractional part and lies in (1e-9, 1), no candidate is closer to 1/2, and every earlier candidate is farther (also lines 49-66) |
| CuttingPlanes.CutParts | ThirdYearLP_IP_Solver/Algorithms/CuttingPlane.cs:76-89 | rhsConstant is never negative; every left-hand term names an x, s or e column with a part in (1e-9, 1); every such column with a fractional coefficient has its term |
| CuttingPlanes.Negated | ThirdYearLP_IP_Solver/Algorithms/CuttingPlane.cs:95-97 | every term with its coefficient negated, in order |
| CuttingPlanes.MIRCutShape | ThirdYearLP_IP_Solver/Algorithms/CuttingPlane.cs:72-100 | a cut from a row with a fractional RHS has a negative right-hand side and one term with coefficient -f, f in (1e-9, 1), for each x, s or e column of fractional part f; no other terms |
| CuttingPlanes.NoCutIff | ThirdYearLP_IP_Solver/Algorithms/CuttingPlane.cs:20-47 | no cut is generated exactly when no constraint row has a fractional RHS |
| CuttingPlanes.CutChoice | ThirdYearLP_IP_Solver/Algorithms/CuttingPlane.cs:20-47 | otherwise the cut is the cut of the earliest constraint row whose fractional part is closest to 1/2, that part lies in (1e-9, 1) and the cut's right-hand side is negative |
| CuttingPlanes.NegateAll | ThirdYearLP_IP_Solver/Algorithms/CuttingPlane.cs:95-97 | finalLHS is every term negated |
| CuttingPlanes.CuttingPlane.constructor | ThirdYearLP_IP_Solver/Algorithms/CuttingPlane.cs:14-18 | the object holds the caller's tableau and names |
| CuttingPlanes.CuttingPlane.RunCuttingPlane | ThirdYearLP_IP_Solver/Algorithms/CuttingPlane.cs:20-47 | the loops compute the outcome of the cutting-plane step on the tableau, which they only read |
| CuttingPlanes.CuttingPlane.FractionalRows | ThirdYearLP_IP_Solver/Algorithms/CuttingPlane.cs:26-33 | the loop collects the candidate rows |
| CuttingPlanes.CuttingPlane.ChooseRow | ThirdYearLP_IP_Solver/Algorithms/CuttingPlane.cs:49-66 | the loop computes the fold's row and fraction |
| CuttingPlanes.CuttingPlane.GenerateMIRCut | ThirdYearLP_IP_Solver/Algorithms/CuttingPlane.cs:68-105 | the loops compute the cut of the given row |
| CanonicalForms.Truncate | ThirdYearLP_IP_Solver/Algorithms/CanonicalFormBuilder.cs:39 | the (int) cast gives 0 exactly for values strictly between -1 and 1 |
| CanonicalForms.ObjectiveRowShape | ThirdYearLP_IP_Solver/Algorithms/CanonicalFormBuilder.cs:19-31 | the objective row is "(z)", one term per coefficient in order, negated first for a minimisation, then "= 0" |
| CanonicalForms.ObjectiveTermAt | ThirdYearLP_IP_Solver/Algorithms/CanonicalFormBuilder.cs:20-30 | objective term i is built from coefficient i, negated for a minimisation |
| CanonicalForms.NonzeroExactly | ThirdYearLP_IP_Solver/Algorithms/CanonicalFormBuilder.cs:46-50 | the columns that get a term are exactly those with a nonzero coefficient, in increasing order (also lines 60-64) |
| CanonicalForms.TermsAreNonzeroColumns | ThirdYearLP_IP_Solver/Algorithms/CanonicalFormBuilder.cs:46-50 | the terms are the terms of the nonzero columns, one each, in column order: a zero coefficient gives no term (also lines 60-64) |
| CanonicalForms.NegatedAll | ThirdYearLP_IP_Solver/Algorithms/CanonicalFormBuilder.cs:57 | every coefficient negated |
| CanonicalForms.KindCount | ThirdYearLP_IP_Solver/Algorithms/CanonicalFormBuilder.cs:15-16 | each counter counts at most the rows seen (also lines 45, 56) |
| CanonicalForms.CanonicalFormShape | ThirdYearLP_IP_Solver/Algorithms/CanonicalFormBuilder.cs:14 | the form has one row more than there are constraints, the objective row first; every constraint row ends with its s or e name and "= rhs", the RHS negated for an excess row (also lines 32, 35-70) |
| CanonicalForms.KindNumbering | ThirdYearLP_IP_Solver/Algorithms/CanonicalFormBuilder.cs:43-67 | slack rows are numbered s1, s2, ... and excess rows e1, e2, ... each on its own counter: from 1, at most the count of that kind, later rows of a kind larger |
| CanonicalForms.CountMonotone | ThirdYearLP_IP_Solver/Algorithms/CanonicalFormBuilder.cs:45 | a counter never decreases (also line 56) |
| CanonicalForms.CountsCoverRows | ThirdYearLP_IP_Solver/Algorithms/CanonicalFormBuilder.cs:43-56 | every row advances exactly one of the two counters |
| CanonicalForms.FormByRows | ThirdYearLP_IP_Solver/Algorithms/CanonicalFormBuilder.cs:32 | a list with the objective row first and each constraint row at its place is the canonical form (also line 69) |
| CanonicalForms.BuildObjectiveRow | ThirdYearLP_IP_Solver/Algorithms/CanonicalFormBuilder.cs:19-31 | the loop builds the objective row |
| CanonicalForms.BuildTerms | ThirdYearLP_IP_Solver/Algorithms/CanonicalFormBuilder.cs:46-50 | the loop builds the terms of the nonzero coefficients (also lines 60-64) |
| CanonicalForms.BuildConstraintRow | ThirdYearLP_IP_Solver/Algorithms/CanonicalFormBuilder.cs:37-67 | the row's entries, with the counter of its kind advanced and the other kept |
| CanonicalForms.BuildCanonicalForm | ThirdYearLP_IP_Solver/Algorithms/CanonicalFormBuilder.cs:12-79 | the loop builds the canonical form of the objective and the constraints |
| ProblemServices.ExamplesShape | ThirdYearLP_IP_Solver/Model/ProblemService.cs:22-68 | every example has one sign and one RHS per constraint row and one objective coefficient per column; the first is max 3x1 + 2x2, the last a minimisation |
| ProblemServices.NextIndex | ThirdYearLP_IP_Solver/Model/ProblemService.cs:74 | the cursor moves one place on and back to 0 after the last problem |
| ProblemServices.IndexAfterWraps | ThirdYearLP_IP_Solver/Model/ProblemService.cs:71-76 | up to n calls move the cursor k places on, wrapping round once past the end |
| ProblemServices.ServedAt | ThirdYearLP_IP_Solver/Model/ProblemService.cs:71-76 | call t returns the problem at the cursor after t calls |
| ProblemServices.CallsCycle | ThirdYearLP_IP_Solver/Model/ProblemService.cs:22-68 | as many calls as there are problems return each problem once, starting at the cursor and wrapping round, and bring the cursor back (also line 74) |
| ProblemServices.ProblemsService.constructor | ThirdYearLP_IP_Solver/Model/ProblemService.cs:12-21 | the problems are the three examples and the cursor is 0 |
| ProblemServices.ProblemsService.GetNext | ThirdYearLP_IP_Solver/Model/ProblemService.cs:71-76 | the result is the example at the cursor; the cursor moves on cyclically and stays in range; the problems never change |

## Left out

Whole files and methods:
- MainForm.cs and MainForm.Designer.cs are not part of this model: they are WinForms UI and event wiring.
- Slay.cs is not part of this model: it plays audio.
- InputParser.cs reads files, and OutputWriter.cs is a global output stream. Neither is modelled.
- LPMatrix.cs, PrimalSimplex.cs and LPConverter.cs are not modelled: they are an empty constructor, TODO stubs over `DataTable`, and a thin mapping from an unseen type.
- Sensitivity Analysis.cs and B&BKnapsack.cs are not part of this model. No branch-and-bound, knapsack or ranging code is modelled.
- Console, OutputWriter and `Print*` output is not modelled, and neither is the `isConsoleOutput` flag's effect. This covers `PrintTableau`, `PrintMatrix`, `PrintTransformations` and `VerifySignRestrictions`, which only prints.
- `SimplexTable.ToDataTable`, `GetObjectiveValue` and `SimplexSolver.GetSolutionSummary` are not modelled: they are display code, and `GetObjectiveValue` is a stub that returns 0.
- In `DoPreliminaries`, everything after the basic-column and `cbv` steps is left out. That is the inverse of `matB`, the rebuilt changing table and its output (RevisedSimplex.cs:615-745). Only the matrix operations it calls are modelled.
- The entry points `RunRevisedPrimalSimplex`, `CuttingPlane.PrintTableau` and `Solve(LpModel, bool)` are not modelled. `CanonicalForm.FromModel` and `LpModel` are not part of this model, so `DualSimplexSolver.Solve` starts from the arrays `A`, `b` and `c`. The `_varNames` names and the message strings of `SolveResult` are left out.

Numbers and sign types:
- Floating point is not modelled:
  - `double` is `real`, so there is no rounding;
  - `-0.0` is not normalised (Algorithms/DualSimplex.cs:180, 265, 315-321, 342-348);
  - number-to-string formatting is a parameter `fmt`;
  - NaN, infinities other than the ratio sentinels, and out-of-range casts are not modelled.
- The `Type` strings of `RevisedVariableTransformation` are the sign type of the variable. The `"slack"`/`"excess"` filter before `Max` (RevisedSimplex.cs:204) never removes a record the code creates, so it is not modelled.

Termination and fuel:
- `DualSimplexSolver.RunDualPhase`, `DualSimplexSolver.RunPrimalPhase`, `ListDualSimplex.DualSimplex.RunDualPhase` and `ListDualSimplex.DualSimplex.RunPrimalPhase`: the source loops have no bound. The model takes a `fuel` count and reports `Exhausted` when it runs out. Termination of the simplex method (cycling) is not claimed.

Preconditions that exclude inputs on which the source throws an index exception:
- `DualSimplexSolver.Solve` requires `m <= n + 1`. With more rows the padded basis entry `n + 1` makes the set-up read `T[r, n + 1]`, past the RHS column. At `m = n + 1` the padded entry `n` is the RHS column itself: the set-up pivots on it, and the first pivot of a phase made in that row looks `n` up among the `n` names and throws. The model returns `Thrown` there (properties claimed in the `RunDualPhase`, `RunPrimalPhase`, `RunPhases` and `Solve` rows). When no pivot is needed nothing throws, and the run reports what the canonicalised RHS column holds: `DualSimplexRun.ExtraRowStart` works one such problem out, max x1 subject to x1 <= 2 and x1 <= 3, which is reported optimal at x1 = 0.
- `ListDualSimplex.DualSimplex.DoFormulationOperation`, `ListDualSimplex.DualSimplex.GetInput`, `ListDualSimplex.DualSimplex.DoDualSimplex` and `RevisedSimplex.RevisedPrimalSimplex.DoFormulationOperation` require every row to have between 2 and `n + m + 3` entries. These are the lengths the formulation indexes without throwing.
- `RevisedSimplex.RevisedPrimalSimplex.TransformVariableSignRestrictions` requires one sign per objective coefficient, and rows that have at least as many entries as there are coefficients and at least 2 entries.
- `RevisedSimplex.RevisedPrimalSimplex.ExtractSolution` and `RevisedSimplex.RevisedPrimalSimplex.BasisOfTableaus` require the tableau rows to be as wide as the columns they read.
- `SimplexTables.SimplexSolver.PerformPivotOperation` requires an in-range pivot position. Its only caller passes one (`SimplexTableSpec.PivotChoiceIsSafe`).
- `CuttingPlanes.CuttingPlane.RunCuttingPlane` requires a right-hand-side column and a name for every other column.
- `CanonicalForms.BuildCanonicalForm` requires rows of at least two entries (RHS and type).
- `BigMSimplex.Simplex.constructor` requires at least one constraint and rows as wide as the first one. `First()` throws on an empty list.
- `BigMSimplex.Simplex.CalculateSimplexTableau` requires a nonzero pivot. The ratio test only offers positive ones.
- `SimplexSnaps.Copy2` requires every row to be at least as wide as the first, because the source takes the width from the first row. It copies to an `array2<real>` only.

Weaker contracts:
- `RevisedInverse.MatInverse`: the result R is shown to satisfy R * A = I, not A * R = I. Which singular inputs throw "Matrix is singular" is not characterised beyond the absence of a usable pivot.
- `RevisedMatrix.MatMultiply`: the entries are stated through `Product` only when `B` has at least one column.
- `BigMSimplex.Simplex.GetResult`: that the snapshots are fresh is stated on `BigMSimplex.Simplex.Snapshot` and `SimplexSnaps.SimplexSnap.constructor`, not in this postcondition.

State and records:
- Lists that the source mutates are `seq` fields that the methods reassign. Fixed-size C# arrays are Dafny arrays. Aliasing between two C# lists is not modelled.
- Problem.cs, Function.cs, Constraint.cs and SimplexIndexResult.cs are plain records, and are modelled as datatypes. `LPProblem` and `LPConstraint` hold only the members the solver reads. `ConstraintCount` is the length of the constraint list, and a `null` name is the empty string.
- The static `shared` instance of ProblemService.cs is not modelled. The model works on one service object.
- The `dual` field of `RevisedPrimalSimplex` is not modelled.
- `BigMSimplex.ScanBasis`: builds the corrected basis listed under Findings (one basic column per row, the later one when a row has two), not the basis as written, which `BigMSpec.DiscoveryBasis` models.
- `BigMSimplex.AddArtificials`: completes the corrected basis with the artificial columns; the code as written is `BigMSpec.DiscoveryBasis`.
- `BigMSimplex.Simplex.GetMatrix`: stores the corrected basis in `C`, not the basis as written (`BigMSpec.DiscoveryBasis`).
- `BigMSimplex.Simplex.IndexOfMinimalRatio`: uses the corrected ratio test listed under Findings; the test as written is `BigMSpec.MinRatio`.
- `BigMSimplex.Simplex.constructor`, `BigMSimplex.Simplex.NextStep`, `BigMSimplex.Simplex.GetResult`, `BigMSimplex.Simplex.Start`, `BigMSimplex.Simplex.Round` and `BigMSimplex.Simplex.Advance` run on the corrected basis and the corrected ratio test, since they call the four members above.

## Findings

| source | as written | input that shows it | evidently intended | confidence | as-written member | corrected member |
|---|---|---|---|---|---|---|
| ThirdYearLP_IP_Solver/Model/Simplex.cs:152-214 | `C` receives the unit columns in the order the column scan meets them, and then the artificial columns. It is not indexed by row, yet pricing and pivoting read `C[i]` as row i's basic column. | constraints x1 + x2 >= 1 and x1 + x2 <= 4. `C` becomes [3, 4]. Column 3 is the slack of row 1, not a unit vector of row 0. | `C[r]` is the column that is the unit vector of row r. | not executed | `BigMSpec.DiscoveryBasis`, shown by `BigMSpec.DiscoveryBasisMisaligned` | `BigMSpec.RowBasis`, with `BigMSpec.RowBasisUnit` and `BigMSpec.RowBasisDistinct` |
| ThirdYearLP_IP_Solver/Model/Simplex.cs:153-211 | each unit column found (lines 185-189) takes the next slot of `C`, which has one slot per row. Two unit columns for one row overflow it. | the single constraint x1 <= 3. Both x1's column and the slack are unit vectors of row 0, so the second write is past the end of `C` (IndexOutOfRangeException). | one basic column per row. | not executed | `BigMSpec.DiscoveryBasis`, shown by `BigMSpec.DiscoveryBasisOverflows` | `BigMSpec.RowBasis` (gives [1]) |
| ThirdYearLP_IP_Solver/Model/Simplex.cs:352 | the ratio test only considers rows with `b[i] > 0`, so a degenerate row with `b[i] = 0` and a positive entry is skipped. | column [1, 1] with b = [0, 1]. Row 1 is chosen, and the pivot makes b[0] = -1. The basis becomes infeasible. | rows with `b[i] >= 0` and a positive entry compete, so the ratio 0 wins and `b` stays non-negative. | not executed | `BigMSpec.MinRatio`, shown by `BigMSpec.MinRatioBreaksFeasibility` | `BigMSpec.MinRatioFeasible`, with `BigMSpec.PivotKeepsNonNegative`, used by `BigMSimplex.Simplex.IndexOfMinimalRatio` |

# doku-solver constraint engine, in Dafny

A model of the Sudoku engine of doku-solver (C#). Every board is an N x N
grid of `short` values where 0 marks an empty cell. A box has side
`(int)Math.Sqrt(N)`. The model covers:

- the candidate logic of `Doku` (row, column and box candidate lists;
  `IsFilled`; `IsSolved`);
- the placement scans of `Solver`;
- the `Position` and `Cursor` types;
- the `Grid`/`GridIO` store with its JSON-style flatten/unflatten and its
  CSV rendering;
- the text loader `GridLoader`;
- the four deterministic solvers: `BackTrack`, `OtherBackTrack`,
  `SlotPerSlot` and `BruteForce`;
- the puzzle `Generator`;
- the parts of the two earlier iterations of the program (`Main.cs`,
  `V2.cs`) that differ from the current code: the fill percentage, the
  fill-target backtracker and `SmartBruteforce`, the hand-written string
  splitter, and the text loaders.

Boards are values (`Board.Matrix = seq<seq<int>>`). A solver is a pure
function from the board it is given to the board it leaves behind. A
backtracking search returns `Outcome(solved, grid)`. "A failed search
restores the board" is therefore a theorem about the returned grid, not
a property of mutation.

Every loop of the source that has no bound of its own takes a `fuel`
argument and answers `None` when the fuel runs out. These are the
`do ... while (!IsSolved(...))` loops. The generator's carve attempts
are a finite list instead.
Randomness is an argument too: the index each `random.Next` call returns
is passed in as a number or a list.

Modules follow the source:

| module | file | source |
|---|---|---|
| `Arith` | arith.dfy | integer square root, box origins |
| `Board` | board.dfy | the board, units, conflicts, counts |
| `Positions` | positions.dfy | doku/tools/Position.cs, Cursor.cs |
| `Solver` | placement.dfy | doku/solvers/Solver.cs |
| `Doku` | doku.dfy | doku/Doku.cs |
| `GridStore` | gridstore.dfy | grid/Grid.cs, grid/GridIO.cs |
| `GridLoader` | gridloader.dfy | grid/GridLoader.cs |
| `Text` | text.dfy | decimal text, `short.Parse`, `String.Split`/`Join` |
| `Loops` | loops.dfy | the `do`/`while` pass loops, over any step |
| `BackTrack`, `OtherBackTrack`, `SlotPerSlot`, `BruteForce` | backtrack.dfy, otherbacktrack.dfy, slotperslot.dfy, bruteforce.dfy | doku/solvers/algorithms/ |
| `Generator` | generator.dfy | doku/generator/Generator.cs |
| `Legacy`, `LegacyBackTrack` | legacy.dfy, legacybacktrack.dfy | Main.cs, V2.cs |

Three behaviours of the code shape what is proved:

- `BackTrack.Backtrack` (doku/solvers/algorithms/BackTrack.cs:17-36)
  answers success as soon as the cursor reaches the bottom-right cell
  (line 20), so that cell is never visited (see Findings).
- After a failed recursion, `BackTrack.Backtrack` leaves the tried value in
  the cell while it checks the next candidate (lines 27-33). It writes 0
  only after every candidate has failed (line 34). The model follows this.
- `IsSolved` is documented at V2.cs:205-210 as checking "if all the slots
  have value and there is no contradiction of values". The code (V2.cs:211-220,
  and the same loops in doku/Doku.cs:28-37) only checks two things: every
  cell is non-zero, and no cell has a candidate left.
  `Doku.SolvedButNotSolution` proves that this accepts boards with repeated
  values. The model keeps the code's check. The loops that stop on it are
  therefore only proved to return solutions when started from a
  conflict-free board.

## Model

| member | source | states |
|---|---|---|
| Arith.Isqrt | doku-solver/doku/solvers/Solver.cs:24 | the box side is the integer square root of N: s*s <= N < (s+1)*(s+1) |
| Arith.IsqrtOfSquare | doku-solver/doku/generator/Generator.cs:57-58 | a board of k*k rows, as the generator builds it, has boxes of side exactly k |
| Arith.BoxStartFacts | doku-solver/doku/solvers/Solver.cs:25-26 | the box origin `row - row % k` equals `(row / k) * k`, and the box [origin, origin+k) contains row and stays inside the board when k divides N |
| Arith.SameBoxStartIffSameQuotient | doku-solver/doku/Doku.cs:85-86 | two coordinates share a box origin exactly when they share the quotient by k |
| Board.SetCell | doku-solver/grid/Grid.cs:24-26 | a write changes exactly the addressed cell to the value; every other cell keeps its value |
| Board.SetCellSame | doku-solver/grid/Grid.cs:24-26 | writing back the value a cell holds leaves the board unchanged |
| Board.SetCellTwice | doku-solver/grid/Grid.cs:24-26 | a second write to the same cell overrides the first |
| Board.PutAt | doku-solver/grid/Grid.cs:24-38 | a write by position is read back at that position; every other position reads as before |
| Board.PutSame | doku-solver/grid/Grid.cs:24-38 | writing a position's own value changes nothing |
| Board.PutTwice | doku-solver/grid/Grid.cs:24-38 | two writes to one position equal the second write alone |
| Board.PlaceKeepsConflictFree | doku-solver/doku/solvers/Solver.cs:35-39 | a value absent from the cell's row, column and box can be written without creating a conflict |
| Board.ClearKeepsConflictFree | doku-solver/doku/solvers/algorithms/BackTrack.cs:34 | emptying a cell never creates a conflict |
| Board.SoundAfterPlace | doku-solver/doku/solvers/algorithms/OtherBackTrack.cs:18-19 | an accepted placement keeps a board well formed, conflict-free and within 1..N |
| Board.SoundAfterClear | doku-solver/doku/solvers/algorithms/OtherBackTrack.cs:21 | undoing a placement keeps a sound board sound |
| Board.SolutionValueFits | doku-solver/doku/solvers/algorithms/OtherBackTrack.cs:17-18 | a blank cell of givens that some solution extends accepts that solution's value: it is in 1..N and absent from the cell's three units |
| Board.SolutionRowCovers | doku-solver/doku/Doku.cs:28-37 | every row of a valid full board holds each of 1..N |
| Board.FillOneCell | doku-solver/Main.cs:325-332 | filling one empty cell lowers the number of empty cells by exactly one |
| Board.CountsAddUp | doku-solver/Main.cs:325-332 | empty and filled cells together number N*N |
| Board.FullCount | doku-solver/Main.cs:325-332 | a board without zeros has N*N filled cells |
| Board.EmptyCount | doku-solver/Main.cs:325-332 | an all-zero board has no filled cell |
| Board.RefinesCount | doku-solver/Main.cs:325-332 | a board that keeps every filled cell of another has at least as many filled cells |
| Board.ZeroCountZeroIff | doku-solver/doku/Doku.cs:15-22 | no empty cell is counted exactly when no cell holds 0 |
| Board.RefinesTransitive | doku-solver/doku/solvers/algorithms/SlotPerSlot.cs:10-23 | keeping the givens composes across passes |
| Positions.NewCursor | doku-solver/doku/tools/Cursor.cs:7-10 | a new cursor stands at the origin with the given grid size |
| Positions.CopiesAndSetters | doku-solver/doku/tools/Cursor.cs:12-64 | copies and `SetPosition` carry the coordinates (and keep the size where the source keeps it); `Reset` is a fresh cursor of the same size |
| Positions.HasNext | doku-solver/doku/tools/Cursor.cs:37-39 | on the board, some cell follows exactly when the position is not the bottom-right cell |
| Positions.Next | doku-solver/doku/tools/Cursor.cs:41-47 | `Next` keeps the size, stays on the board while `HasNext` holds, and moves to the successor in row-major order |
| Positions.NextRank | doku-solver/doku/tools/Cursor.cs:41-47 | every `Next` raises the row-major rank by one, wrap-around included |
| Positions.Previous | doku-solver/doku/tools/Cursor.cs:49-55 | `Previous` keeps the size |
| Positions.PreviousRank | doku-solver/doku/tools/Cursor.cs:49-55 | every `Previous` lowers the row-major rank by one |
| Positions.PreviousAfterNext | doku-solver/doku/tools/Cursor.cs:41-55 | `Previous` undoes `Next` for any in-range column |
| Positions.NextAfterPrevious | doku-solver/doku/tools/Cursor.cs:41-55 | `Next` undoes `Previous` for any in-range column |
| Positions.LastIsLast | doku-solver/doku/tools/Cursor.cs:37-39 | `HasNext` fails exactly at the bottom-right cell, which every other cell precedes |
| Positions.PrecedesAfter | doku-solver/doku/tools/Cursor.cs:41-47 | the cells before the next position are the cells before p plus p itself |
| Positions.IndexInjective | doku-solver/doku/tools/Cursor.cs:41-47 | two board cells with the same row-major rank are the same cell |
| Positions.Walk | doku-solver/doku/solvers/algorithms/SlotPerSlot.cs:11-20 | the traversal from a cell visits N*N minus its rank cells, the t-th being the cell of rank (start + t) |
| Positions.WalkFromOriginVisitsAll | doku-solver/doku/solvers/algorithms/SlotPerSlot.cs:11-21 | from a reset cursor the traversal visits every cell exactly once, in row-major order |
| Solver.IsInRow | doku-solver/doku/solvers/Solver.cs:9-14 | true exactly when some cell of the row holds the number |
| Solver.RowScanFinds | doku-solver/doku/solvers/Solver.cs:10-13 | the row loop from column i finds the number exactly when a cell from column i on holds it |
| Solver.IsInColumn | doku-solver/doku/solvers/Solver.cs:16-21 | true exactly when some cell of the column holds the number |
| Solver.ColumnScanFinds | doku-solver/doku/solvers/Solver.cs:17-20 | the column loop from row i finds the number exactly when a cell from row i on holds it |
| Solver.SectionRowScanFinds | doku-solver/doku/solvers/Solver.cs:29-31 | the inner box loop from column j finds the number exactly when a box cell of that row from column j on holds it |
| Solver.IsInSection | doku-solver/doku/solvers/Solver.cs:23-33 | true exactly when some cell of the cell's box holds the number |
| Solver.SectionScanFinds | doku-solver/doku/solvers/Solver.cs:28-31 | the nested box loops find the number exactly when a cell of the remaining box rows holds it |
| Solver.IsValidPlacement | doku-solver/doku/solvers/Solver.cs:35-39 | true exactly when the number is in none of the cell's row, column and box |
| Solver.ValidIffPossible | doku-solver/doku/solvers/Solver.cs:35-39 | for 1..N, the scans accept a value exactly when it is among the cell's candidates in Doku |
| Solver.OutOfRangeNeverPossible | doku-solver/doku/Doku.cs:48-57 | a value outside 1..N is never a candidate |
| Solver.BoxOriginsAgree | doku-solver/doku/solvers/Solver.cs:25-26 | `row - row % k` of Solver.cs and `(row / k) * k` of Doku.cs give the same box, inside the board |
| Solver.ValidPlacementKeepsConflictFree | doku-solver/doku/solvers/Solver.cs:35-39 | writing a value the scans accept keeps a conflict-free board conflict-free |
| Doku.Range1 | doku-solver/doku/Doku.cs:64-65 | the initial list is 1, 2, ..., n in that order |
| Doku.RemoveFirst | doku-solver/doku/Doku.cs:67-68 | `List.Remove` drops one occurrence: the length falls by one exactly when the value was present, and every other value stays |
| Doku.RemoveEach | doku-solver/doku/Doku.cs:66-68 | removing each scanned value from an ascending list leaves exactly the values not scanned, still ascending |
| Doku.KeepCommon | doku-solver/doku/Doku.cs:53-55 | the merged list holds exactly the values in all three lists, in the order of the row list |
| Doku.ColumnOf | doku-solver/doku/Doku.cs:66-68 | the column read top to bottom |
| Doku.BoxRows | doku-solver/doku/Doku.cs:87-90 | the values of the box rows still to scan |
| Doku.BoxValues | doku-solver/doku/Doku.cs:87-90 | the box scan meets exactly the values of the cell's box |
| Doku.RowPossibilities | doku-solver/doku/Doku.cs:71-78 | ascending, and holds exactly the values of 1..N missing from the row |
| Doku.ColumnPossibilities | doku-solver/doku/Doku.cs:62-69 | ascending, and holds exactly the values of 1..N missing from the column |
| Doku.SectionPossibilities | doku-solver/doku/Doku.cs:80-91 | ascending, and holds exactly the values of 1..N missing from the box |
| Doku.GetSlotPossibilities | doku-solver/doku/Doku.cs:48-57 | ascending, and holds exactly the values of 1..N missing from the row, the column and the box |
| Doku.AscendingUnique | doku-solver/doku/Doku.cs:48-57 | two ascending lists with the same members are equal, so candidate lists are determined by their members |
| Doku.PossibilitiesAtMostN | doku-solver/doku/Doku.cs:48-57 | a cell has at most N candidates |
| Doku.EmptyBoardPossibilities | doku-solver/doku/Doku.cs:48-57 | on an empty board every cell's candidates are exactly 1..N in order |
| Doku.OwnValueNotPossible | doku-solver/doku/Doku.cs:48-57 | a cell's own value is never among its candidates |
| Doku.FilledFrom | doku-solver/doku/Doku.cs:17-19 | the scan from (i, j) is true exactly when every later cell is non-zero |
| Doku.IsFilled | doku-solver/doku/Doku.cs:15-22 | true exactly when no cell holds 0 |
| Doku.NoPossibilityIffBlocked | doku-solver/doku/Doku.cs:33 | an empty candidate list means every value 1..N is already in the cell's row, column or box |
| Doku.AllFrom | doku-solver/doku/Doku.cs:30-35 | the loops from (i, j) are true exactly when every later verdict is true |
| Doku.IsSolved | doku-solver/doku/Doku.cs:28-37 | true exactly when the board has no zero and every cell is blocked, i.e. has no candidate |
| Doku.SolvedIsFilled | doku-solver/doku/Doku.cs:28-37 | a solved board is filled |
| Doku.SolutionIsSolved | doku-solver/doku/Doku.cs:28-37 | every valid completed board passes `IsSolved` |
| Doku.RowsCoveredIsSolved | doku-solver/doku/Doku.cs:28-37 | a full board whose every row holds 1..N passes `IsSolved`, whatever its columns and boxes hold |
| Doku.SolvedButNotSolution | doku-solver/doku/Doku.cs:28-37 | N >= 2 copies of the row 1..N pass `IsSolved` yet are not a valid board |
| BackTrack.CrossScanFinds | doku-solver/doku/solvers/algorithms/BackTrack.cs:39-42 | the first loop finds v exactly when it sits in the row or the column from index i on |
| BackTrack.IsPresentForSlot | doku-solver/doku/solvers/algorithms/BackTrack.cs:38-54 | true exactly when v sits in the cell's row or column, or `Solver.IsInSection` finds it in the cell's box |
| BackTrack.PresentIffInvalid | doku-solver/doku/solvers/algorithms/BackTrack.cs:38-54 | `IsPresentForSlot` holds exactly when `IsValidPlacement` refuses the value |
| BackTrack.Backtrack | doku-solver/doku/solvers/algorithms/BackTrack.cs:17-36 | the board keeps its size and shape, and a failed search hands the board back exactly as it came in |
| BackTrack.TryCandidates | doku-solver/doku/solvers/algorithms/BackTrack.cs:27-35 | when every candidate fails, the board comes back with the cell reset to 0 and nothing else changed |
| BackTrack.Place | doku-solver/doku/solvers/algorithms/BackTrack.cs:28-31 | a placement whose recursion fails leaves the board with only that cell reset to 0 |
| BackTrack.Solve | doku-solver/doku/solvers/algorithms/BackTrack.cs:10-15 | the solver returns a board of the input's size, whether or not the search succeeded |
| BackTrack.BacktrackFrame | doku-solver/doku/solvers/algorithms/BackTrack.cs:17-36 | a search from p never changes a given cell or a cell before p; on success every cell from p on is filled, except the bottom-right cell as written |
| BackTrack.TryFrame | doku-solver/doku/solvers/algorithms/BackTrack.cs:27-35 | trying values from v keeps every pinned cell; on success the cell holds a value in v..N and every later cell is filled |
| BackTrack.TryFramePlace | doku-solver/doku/solvers/algorithms/BackTrack.cs:28-31 | the same for one accepted value and the recursion after it |
| BackTrack.StepFrame | doku-solver/doku/solvers/algorithms/BackTrack.cs:29-31 | a successful recursion after writing v at p yields a board that keeps every pinned cell, holds v..N at p, and is filled from p on |
| BackTrack.SolveFrame | doku-solver/doku/solvers/algorithms/BackTrack.cs:10-36 | as written: the result keeps every given, leaves the bottom-right cell as it was, and on success fills every other cell |
| BackTrack.BacktrackSound | doku-solver/doku/solvers/algorithms/BackTrack.cs:17-36 | every write of the search keeps a sound board sound |
| BackTrack.TrySound | doku-solver/doku/solvers/algorithms/BackTrack.cs:27-35 | the candidate loop keeps a sound board sound |
| BackTrack.PlaceKeepsSound | doku-solver/doku/solvers/algorithms/BackTrack.cs:28-29 | writing a value 1..N that `IsPresentForSlot` does not find keeps a sound board sound |
| BackTrack.ClearKeepsSound | doku-solver/doku/solvers/algorithms/BackTrack.cs:34 | resetting a cell to 0 keeps a sound board sound |
| BackTrack.FillLast | doku-solver/doku/solvers/algorithms/BackTrack.cs:20 | corrected base case: success writes the smallest accepted value >= v into the bottom-right cell; failure leaves the board unchanged |
| BackTrack.SolveFixed | doku-solver/doku/solvers/algorithms/BackTrack.cs:10-15 | the corrected search keeps the board's size and shape |
| BackTrack.SolveFixedFills | doku-solver/doku/solvers/algorithms/BackTrack.cs:17-36 | corrected: the result keeps every given, and success means a board with no zero at all |
| BackTrack.SolveFixedIsSolution | doku-solver/doku/solvers/algorithms/BackTrack.cs:10-15 | from sound givens both searches return sound boards keeping the givens, and the corrected one's success is a valid solution |
| BackTrack.FixedAgrees | doku-solver/doku/solvers/algorithms/BackTrack.cs:17-36 | when the bottom-right cell is given, the search as written and the corrected one give the same outcome |
| BackTrack.OwnCellIgnored | doku-solver/doku/solvers/algorithms/BackTrack.cs:27-33 | the scans at a blank cell accept or refuse a value the same way when an earlier candidate is still written in the cell, so keeping the tried value there (line 29) never hides a candidate |
| BackTrack.FillLastComplete | doku-solver/doku/solvers/algorithms/BackTrack.cs:20 | corrected: the base case succeeds whenever some value from v on is accepted by the scans |
| BackTrack.BacktrackComplete | doku-solver/doku/solvers/algorithms/BackTrack.cs:17-36 | corrected: from any cell, the search succeeds whenever some solution keeps every non-zero cell |
| BackTrack.TryComplete | doku-solver/doku/solvers/algorithms/BackTrack.cs:27-33 | corrected: the candidate loop succeeds while the solution's value at the cell is still ahead, whatever earlier candidate the cell still holds |
| BackTrack.PlaceComplete | doku-solver/doku/solvers/algorithms/BackTrack.cs:28-31 | corrected: writing an accepted value at or below the solution's value leads to success |
| BackTrack.SolveFixedIffSolvable | doku-solver/doku/solvers/algorithms/BackTrack.cs:10-36 | corrected: on a sound board, the search succeeds exactly when some solution keeps the givens |
| BackTrack.WalkPastGivens | doku-solver/doku/solvers/algorithms/BackTrack.cs:20-25 | on a board filled everywhere but the bottom-right cell, the search reports success without changing anything |
| BackTrack.LastBlankStaysBlank | doku-solver/doku/solvers/algorithms/BackTrack.cs:20 | the search reports success on such a board while its bottom-right cell is still 0 |
| OtherBackTrack.ZeroInRow | doku-solver/doku/solvers/algorithms/OtherBackTrack.cs:15-16 | a found column lies from j on and holds 0 |
| OtherBackTrack.ZeroInRowFirst | doku-solver/doku/solvers/algorithms/OtherBackTrack.cs:15-16 | every cell the row scan passes over is filled |
| OtherBackTrack.ZeroFrom | doku-solver/doku/solvers/algorithms/OtherBackTrack.cs:14-16 | a found cell lies in row i or later and holds 0 |
| OtherBackTrack.ZeroFromFirst | doku-solver/doku/solvers/algorithms/OtherBackTrack.cs:14-16 | every cell the scan from row i passes over is filled |
| OtherBackTrack.FirstZero | doku-solver/doku/solvers/algorithms/OtherBackTrack.cs:14-16 | no blank is found exactly when the board has no zero; a found cell holds 0 |
| OtherBackTrack.FirstZeroIsFirst | doku-solver/doku/solvers/algorithms/OtherBackTrack.cs:14-16 | the blank found is the first in row-major order |
| OtherBackTrack.SmartSolve | doku-solver/doku/solvers/algorithms/OtherBackTrack.cs:13-31 | keeps size and shape; on failure the board is exactly as it came in |
| OtherBackTrack.TryValues | doku-solver/doku/solvers/algorithms/OtherBackTrack.cs:17-23 | when every value fails, the board comes back unchanged |
| OtherBackTrack.Place | doku-solver/doku/solvers/algorithms/OtherBackTrack.cs:19-21 | a failed placement is undone: the board comes back unchanged |
| OtherBackTrack.Solve | doku-solver/doku/solvers/algorithms/OtherBackTrack.cs:7-11 | the result keeps every given cell |
| OtherBackTrack.SmartSolveFills | doku-solver/doku/solvers/algorithms/OtherBackTrack.cs:13-31 | a reported success is a full board keeping every given |
| OtherBackTrack.TryValuesFills | doku-solver/doku/solvers/algorithms/OtherBackTrack.cs:17-23 | success of the value loop is a full board keeping every given |
| OtherBackTrack.PlaceFills | doku-solver/doku/solvers/algorithms/OtherBackTrack.cs:19-21 | success after a placement is a full board keeping every given |
| OtherBackTrack.PlaceKeepsSound | doku-solver/doku/solvers/algorithms/OtherBackTrack.cs:18-19 | a value `IsValidPlacement` accepts keeps a sound board sound |
| OtherBackTrack.SmartSolveSound | doku-solver/doku/solvers/algorithms/OtherBackTrack.cs:13-31 | the search keeps a sound board sound |
| OtherBackTrack.TryValuesSound | doku-solver/doku/solvers/algorithms/OtherBackTrack.cs:17-23 | the value loop keeps a sound board sound |
| OtherBackTrack.PlaceSound | doku-solver/doku/solvers/algorithms/OtherBackTrack.cs:19-21 | a placement and its recursion keep a sound board sound |
| OtherBackTrack.SolveIsSolution | doku-solver/doku/solvers/algorithms/OtherBackTrack.cs:7-11 | from sound givens, a reported success is a valid solution keeping every given |
| OtherBackTrack.SmartSolveComplete | doku-solver/doku/solvers/algorithms/OtherBackTrack.cs:13-31 | whenever some solution extends the givens, the search succeeds |
| OtherBackTrack.TryValuesComplete | doku-solver/doku/solvers/algorithms/OtherBackTrack.cs:17-23 | the value loop started at or below the solution's value succeeds |
| OtherBackTrack.PlaceComplete | doku-solver/doku/solvers/algorithms/OtherBackTrack.cs:19-21 | a placement at or below the solution's value leads to success |
| OtherBackTrack.SolvedIffSolvable | doku-solver/doku/solvers/algorithms/OtherBackTrack.cs:13-31 | on a sound board the search succeeds exactly when some solution keeps every given |
| SlotPerSlot.Forced | doku-solver/doku/solvers/algorithms/SlotPerSlot.cs:14-18 | the visit keeps the board's size and shape |
| SlotPerSlot.ForcedFrame | doku-solver/doku/solvers/algorithms/SlotPerSlot.cs:14-18 | only a blank visited cell can change; every other cell keeps its value |
| SlotPerSlot.ForcedSound | doku-solver/doku/solvers/algorithms/SlotPerSlot.cs:15-17 | a single candidate written keeps a sound board sound |
| SlotPerSlot.ForcedKeepsSolution | doku-solver/doku/solvers/algorithms/SlotPerSlot.cs:15-17 | a single candidate is the value every solution of the givens has there |
| SlotPerSlot.SweepFrom | doku-solver/doku/solvers/algorithms/SlotPerSlot.cs:11-20 | one traversal keeps the board's size and shape |
| SlotPerSlot.Passes | doku-solver/doku/solvers/algorithms/SlotPerSlot.cs:10-23 | the outer loop keeps the board's size and shape |
| SlotPerSlot.Solve | doku-solver/doku/solvers/algorithms/SlotPerSlot.cs:7-25 | the solver keeps the board's size and shape |
| SlotPerSlot.SolveFixed | doku-solver/doku/solvers/algorithms/SlotPerSlot.cs:11-20 | corrected pass: keeps the board's size and shape |
| SlotPerSlot.SweepRefines | doku-solver/doku/solvers/algorithms/SlotPerSlot.cs:11-20 | a pass keeps every filled cell and, as written, the bottom-right cell |
| SlotPerSlot.SweepSound | doku-solver/doku/solvers/algorithms/SlotPerSlot.cs:11-20 | a pass keeps a sound board sound |
| SlotPerSlot.SweepKeepsSolution | doku-solver/doku/solvers/algorithms/SlotPerSlot.cs:11-20 | a pass never leaves a solution that extends the givens |
| SlotPerSlot.Sweeps | doku-solver/doku/solvers/algorithms/SlotPerSlot.cs:10-23 | a number of passes keeps the board's size and shape |
| SlotPerSlot.PassesAreSweeps | doku-solver/doku/solvers/algorithms/SlotPerSlot.cs:10-23 | the loop's result is t passes, where t is the first count that fills the board or reaches `maxIterations` |
| SlotPerSlot.SolveIdle | doku-solver/doku/solvers/algorithms/SlotPerSlot.cs:10 | a budget <= 0, or a full board, comes back unchanged |
| SlotPerSlot.PassesFacts | doku-solver/doku/solvers/algorithms/SlotPerSlot.cs:10-23 | the loop keeps every given and the bottom-right cell as written, and keeps a sound board sound |
| SlotPerSlot.PassesKeepSolution | doku-solver/doku/solvers/algorithms/SlotPerSlot.cs:10-23 | the loop never leaves a solution that extends the givens |
| SlotPerSlot.SolveFacts | doku-solver/doku/solvers/algorithms/SlotPerSlot.cs:7-25 | the result keeps every given and the bottom-right cell, never has fewer filled cells, and from sound givens a full result is a solution |
| SlotPerSlot.SolveFindsTheSolution | doku-solver/doku/solvers/algorithms/SlotPerSlot.cs:7-25 | a full result from givens with a solution is that solution |
| SlotPerSlot.ClearedCellForced | doku-solver/doku/solvers/algorithms/SlotPerSlot.cs:15-17 | a cleared cell of a solution has exactly one candidate, its own value |
| SlotPerSlot.ClearedRowHolds | doku-solver/doku/solvers/algorithms/SlotPerSlot.cs:15-17 | every other value still sits in that cell's row |
| SlotPerSlot.SweepOverGivens | doku-solver/doku/solvers/algorithms/SlotPerSlot.cs:11-20 | over a board filled except maybe the bottom-right cell, the pass as written changes nothing and the corrected pass visits only that cell |
| SlotPerSlot.LastCellNeverFilled | doku-solver/doku/solvers/algorithms/SlotPerSlot.cs:11 | a solution with its bottom-right cell cleared has exactly one candidate there, yet the solver returns the board unchanged and unfilled |
| SlotPerSlot.SolveFixesNothingAsWritten | doku-solver/doku/solvers/algorithms/SlotPerSlot.cs:10-23 | a board that one pass as written leaves alone is left alone by the whole loop |
| SlotPerSlot.FixedPassFillsLastCell | doku-solver/doku/solvers/algorithms/SlotPerSlot.cs:11-20 | corrected: that board comes back as the full solution |
| SlotPerSlot.FirstFixedPassFills | doku-solver/doku/solvers/algorithms/SlotPerSlot.cs:11-20 | corrected: the first pass already restores the solution |
| BruteForce.ValidFrom | doku-solver/doku/solvers/algorithms/BruteForce.cs:18-20 | every listed value is at least r |
| BruteForce.ValidFromMembers | doku-solver/doku/solvers/algorithms/BruteForce.cs:18-20 | the list is ascending and holds exactly the values r..N that `IsValidPlacement` accepts |
| BruteForce.ValidListIsCandidates | doku-solver/doku/solvers/algorithms/BruteForce.cs:16-20 | the list the scans build equals Doku's candidate list of the cell |
| BruteForce.Visit | doku-solver/doku/solvers/algorithms/BruteForce.cs:13-23 | a visit keeps the board's size and shape |
| BruteForce.VisitIsForced | doku-solver/doku/solvers/algorithms/BruteForce.cs:13-23 | a visit does to the cell what the slot-by-slot pass does |
| BruteForce.CellsFrom | doku-solver/doku/solvers/algorithms/BruteForce.cs:11-25 | the two loops keep the board's size and shape |
| BruteForce.Pass | doku-solver/doku/solvers/algorithms/BruteForce.cs:11-25 | one `do` body keeps the board's size and shape |
| BruteForce.CellsAreSweep | doku-solver/doku/solvers/algorithms/BruteForce.cs:11-25 | the two `for` loops from a cell are the slot-by-slot traversal that also visits the bottom-right cell |
| BruteForce.ScanCandidates | doku-solver/doku/solvers/algorithms/BruteForce.cs:16-20 | the value loop builds exactly the cell's candidate list |
| BruteForce.VisitCell | doku-solver/doku/solvers/algorithms/BruteForce.cs:13-23 | writing in place, one visit gives the forced-single step |
| BruteForce.PassInPlace | doku-solver/doku/solvers/algorithms/BruteForce.cs:11-25 | the in-place loops give the full traversal of the forced-single step |
| BruteForce.PassFacts | doku-solver/doku/solvers/algorithms/BruteForce.cs:11-25 | a pass keeps every filled cell, keeps a sound board sound, and never leaves a solution of the givens |
| BruteForce.CellsIdle | doku-solver/doku/solvers/algorithms/BruteForce.cs:22-23 | if no blank cell has a single candidate, the loops change nothing |
| BruteForce.PassIdle | doku-solver/doku/solvers/algorithms/BruteForce.cs:22-23 | the same, stated with Doku's candidate lists |
| BruteForce.Step | doku-solver/doku/solvers/algorithms/BruteForce.cs:11-25 | one `do` body keeps a board's size and shape and every filled cell |
| BruteForce.Run | doku-solver/doku/solvers/algorithms/BruteForce.cs:10-26 | a board handed back passes `IsSolved`; None means the boards after passes 1..fuel all failed it |
| BruteForce.Solve | doku-solver/doku/solvers/algorithms/BruteForce.cs:6-29 | the same as `BruteForce.Run`, with `maxIterations` playing no part in either clause |
| BruteForce.SolveBounded | doku-solver/doku/solvers/algorithms/BruteForce.cs:6-29 | corrected: a result that fails `IsSolved` is the board after exactly max(1, maxIterations) passes |
| BruteForce.RunFacts | doku-solver/doku/solvers/algorithms/BruteForce.cs:10-26 | what the loop hands back passes `IsSolved` and keeps every given; from sound givens it is a solution |
| BruteForce.RunFindsTheSolution | doku-solver/doku/solvers/algorithms/BruteForce.cs:10-26 | from givens with a solution, what the loop hands back is that solution |
| BruteForce.StuckRunsForever | doku-solver/doku/solvers/algorithms/BruteForce.cs:10-26 | an unsolved board with no single-candidate blank never leaves the loop |
| BruteForce.EmptyBoardNeverFinishes | doku-solver/doku/solvers/algorithms/BruteForce.cs:6-29 | as written: on an empty board of side >= 2 the solver never returns, whatever `maxIterations` is |
| BruteForce.SolveBoundedFacts | doku-solver/doku/solvers/algorithms/BruteForce.cs:6-29 | corrected: the bounded loop always returns; the result keeps the givens and is sound from sound givens (a solution if it passes `IsSolved`); a stuck board comes back as is; it agrees with the unbounded loop whenever that finishes within the budget |
| Loops.DoWhileKeeps | doku-solver/doku/solvers/algorithms/BruteForce.cs:10-26 | what the `do`/`while` loop hands back passes the stop test and keeps every invariant of the step |
| Loops.DoWhileStuck | doku-solver/doku/solvers/algorithms/BruteForce.cs:10-26 | a state the step leaves alone and the test rejects is never left |
| Loops.DoWhileBoundedKeeps | doku-solver/doku/solvers/algorithms/BruteForce.cs:6-29 | corrected: the `do`/`while` loop with a pass budget keeps every invariant of the step |
| Loops.DoWhileBoundedStuck | doku-solver/doku/solvers/algorithms/BruteForce.cs:6-29 | corrected: the budgeted loop on a stuck state ends with the state unchanged |
| Loops.DoWhileBoundedAgrees | doku-solver/doku/solvers/algorithms/BruteForce.cs:10-26 | the budgeted loop agrees with the unbounded one whenever that stops within the budget |
| Loops.DoWhileExitKeeps | doku-solver/Main.cs:556-570 | the loop with an early `return` hands back a state passing the exit or the stop test and keeping every invariant; a start passing the exit test comes back as is |
| Loops.DoWhileExitStuck | doku-solver/Main.cs:556-570 | a state no pass changes and both tests reject is never left |
| Loops.DoWhile | doku-solver/doku/solvers/algorithms/BruteForce.cs:10-26 | a result passes the stop test; None means the states after rounds 1..fuel all failed it |
| Loops.DoWhileBounded | doku-solver/doku/solvers/algorithms/BruteForce.cs:6-29 | corrected, the `do`/`while` loop with `maxIterations` read as a pass budget: a result that fails the stop test is the state after the whole budget, with at least one round |
| Loops.DoWhileExit | doku-solver/Main.cs:556-570 | a result passes the exit or the stop test; None means the exit test failed on rounds 0..fuel-1 and the stop test on rounds 1..fuel |
| Generator.RandomBelow | doku-solver/doku/generator/Generator.cs:104 | `random.Next(n)` lies in [0, n) for n > 0 |
| Generator.Range1Count | doku-solver/doku/generator/Generator.cs:100 | `Enumerable.Range(1, n)` holds each of 1..n once and nothing else |
| Generator.GenerateSection | doku-solver/doku/generator/Generator.cs:98-110 | whatever the draws, the section is k x k and holds each of 1..k*k exactly once |
| Generator.DrawnSection | doku-solver/doku/generator/Generator.cs:102-108 | k*k draws that together are 1..k*k, laid out row by row, form a permutation section |
| Generator.SectionDistinct | doku-solver/doku/generator/Generator.cs:98-110 | two different cells of a section hold different values in 1..k*k |
| Generator.MergeSection | doku-solver/doku/generator/Generator.cs:91-96 | the block at (sectionRow*k, sectionColumn*k) becomes the section cell by cell; every other cell keeps its value |
| Generator.MergeExtendsSeeded | doku-solver/doku/generator/Generator.cs:87-88 | merging section b on the diagonal extends the seeded boxes by one |
| Generator.SeedStep | doku-solver/doku/generator/Generator.cs:87-88 | one round of the seeding loop adds its section as diagonal box b |
| Generator.GenerateBaseGrid | doku-solver/doku/generator/Generator.cs:86-89 | exactly the diagonal boxes are filled (the bottom-right cell among them), and the seeded board is sound |
| Generator.SeededFacts | doku-solver/doku/generator/Generator.cs:86-89 | a fully seeded board has exactly the diagonal boxes filled and is sound |
| Generator.SeededPairDistinct | doku-solver/doku/generator/Generator.cs:86-89 | two cells of one unit of a seeded board never repeat a value |
| Generator.GenerateSolvedGrid | doku-solver/doku/generator/Generator.cs:56-68 | a board handed out (not null) is a valid solution of side k*k; the search as written hands back what the corrected one does, since the seeded bottom-right cell is given |
| Generator.GetRandomPosition | doku-solver/doku/generator/Generator.cs:51-54 | the position lies on the k*k board |
| Generator.CandidateCounts | doku-solver/doku/generator/Generator.cs:42-47 | one candidate count per listed cell, in order |
| Generator.DeletionFlagsMeaning | doku-solver/doku/generator/Generator.cs:40-48 | the two flags end true exactly when some count is 1 and no count is 2 or more |
| Generator.IsDeletionValid | doku-solver/doku/generator/Generator.cs:39-49 | true exactly when some removed cell has one candidate and none has two or more; false on an empty list |
| Generator.RemovedPositions | doku-solver/doku/generator/Generator.cs:18-23 | the recorded positions in removal order, all on the board |
| Generator.TryRemove | doku-solver/doku/generator/Generator.cs:20-25 | the step keeps the board square and its records on the board |
| Generator.CarveFrom | doku-solver/doku/generator/Generator.cs:26-33 | the removal loop keeps the board well formed and its records on the board |
| Generator.CarveState | doku-solver/doku/generator/Generator.cs:17-33 | the copy, first removal and loop keep the board well formed |
| Generator.TryRemoveKeeps | doku-solver/doku/generator/Generator.cs:20-25 | each step keeps the board equal to the solved board with recorded cells blanked |
| Generator.CarveFromFacts | doku-solver/doku/generator/Generator.cs:26-33 | the loop keeps that relation and stops only on an invalid deletion |
| Generator.CarveStateFacts | doku-solver/doku/generator/Generator.cs:17-33 | the carve ends carved from the solved board with an invalid deletion; on a full solved board something was removed |
| Generator.CarveFromGrows | doku-solver/doku/generator/Generator.cs:26-33 | the loop only appends removals |
| Generator.CarveFacts | doku-solver/doku/generator/Generator.cs:17-34 | on a full solved board something is removed; the result is the solved board with cells blanked, and the last removed cell is written back with its solved value |
| Generator.RestoreKeeps | doku-solver/doku/generator/Generator.cs:34 | writing a solved value back keeps a carved board carved |
| Generator.Carve | doku-solver/doku/generator/Generator.cs:17-34 | a finished attempt is a well-formed board of the solved board's size |
| Generator.GenerateUnsolved | doku-solver/doku/generator/Generator.cs:15-36 | a puzzle handed out is well formed, has the solved board's size, and fails `IsSolved(SlotPerSlot.Solve(grid, 100))` |
| Generator.GenerateUnsolvedFacts | doku-solver/doku/generator/Generator.cs:11-37 | the puzzle handed out is the solved board with cells blanked, and `IsSolved(SlotPerSlot.Solve(grid, 100))` fails on it, the as-written solver ending the loop of line 35 |
| Generator.GetAvailablePositions | doku-solver/doku/generator/Generator.cs:75-84 | exactly the non-blank cells, in strictly increasing row-major order |
| GridStore.ZeroMatrix | doku-solver/grid/GridIO.cs:14-16 | an n x n board of zeros |
| GridStore.GetLength | doku-solver/grid/Grid.cs:20-22 | the length of a valid grid is its cursor's grid size |
| GridStore.NewGrid | doku-solver/grid/Grid.cs:8-10 | a zero board with a cursor at the origin sized to it |
| GridStore.FromArray | doku-solver/grid/Grid.cs:12-14 | the array's cells with a cursor at the origin |
| GridStore.FromGrid | doku-solver/grid/Grid.cs:16-18 | the other grid's cells with a fresh cursor at the origin, not the other grid's cursor |
| GridStore.ToShort | doku-solver/grid/Grid.cs:25 | the `(short)` cast: a 16-bit value congruent to the input modulo 2^16, equal to it when it fits |
| GridStore.SetOnPosition | doku-solver/grid/Grid.cs:24-26 | the cursor stays where it is |
| GridStore.SetOnCursor | doku-solver/grid/Grid.cs:28-30 | the grid stays valid (what it writes where is stated by GridStore.CursorAccessors) |
| GridStore.SetOnCursorAt | doku-solver/grid/Grid.cs:32-34 | the grid stays valid (what it writes where is stated by GridStore.CursorAccessors) |
| GridStore.GetAfterSet | doku-solver/grid/Grid.cs:24-38 | a write is read back at its cell as its 16-bit value, leaves every other cell, the length and the cursor alone, and a 16-bit value reads back unchanged |
| GridStore.CursorAccessors | doku-solver/grid/Grid.cs:28-46 | the cursor accessors address the cell under the grid's own cursor |
| GridStore.CopyArray | doku-solver/grid/GridIO.cs:24-30 | a newly allocated array (not the input) of the same dimensions holding the same cells |
| GridStore.Flatten | doku-solver/grid/GridIO.cs:57-60 | the flat list has N*N elements |
| GridStore.FlattenCell | doku-solver/grid/GridIO.cs:60 | cell (i, j) is element i*N + j |
| GridStore.Unflatten | doku-solver/grid/GridIO.cs:85-89 | the board has side floor(sqrt(length)) |
| GridStore.UnflattenCell | doku-solver/Main.cs:164-167 | cell (i, j) of a read board is element i*side + j of the list |
| GridStore.UnflattenFlatten | doku-solver/grid/GridIO.cs:54-90 | importing an exported board gives the board back |
| GridStore.FlattenUnflatten | doku-solver/grid/GridIO.cs:54-90 | exporting an imported list gives the list cut to side*side elements, the whole list when its length is a square |
| GridStore.ImportGrids | doku-solver/grid/GridIO.cs:92-103 | one grid per flat list, in order, each with a fresh cursor |
| GridStore.ExportGrids | doku-solver/grid/GridIO.cs:54-66 | one flat list per grid, in order |
| GridStore.ImportExport | doku-solver/grid/GridIO.cs:54-103 | importing exported grids gives every grid's cells back with cursors at the origin |
| GridStore.CsvField | doku-solver/grid/GridIO.cs:73-74 | a field is non-empty and free of ';' |
| GridStore.CsvFields | doku-solver/grid/GridIO.cs:72-75 | one field per cell, in order |
| GridStore.RenderRows | doku-solver/grid/GridIO.cs:71-78 | one line per row |
| GridStore.RenderRow | doku-solver/grid/GridIO.cs:71-76 | a CSV line holds no line break and at least two characters per cell |
| GridStore.RenderCsv | doku-solver/grid/GridIO.cs:68-81 | with "\n" as the line separator, the text splits back into exactly the rendered lines |
| GridStore.ParseFields | doku-solver/grid/GridIO.cs:73-74 | a parse yields one value per field |
| GridStore.RenderRowTerminated | doku-solver/grid/GridIO.cs:72-76 | a CSV line is the row's fields, each followed by ';' |
| GridStore.ParseFieldsOfRow | doku-solver/grid/GridIO.cs:73-74 | the written fields read back as the row |
| GridStore.RenderRowRoundTrip | doku-solver/grid/GridIO.cs:68-81 | a written row splits into one field per cell and reads back as the row (a space reads as 0) |
| GridLoader.GetGrid | doku-solver/grid/GridLoader.cs:10-16 | loading succeeds exactly when the first L characters of all L lines are digits; cell (i, j) is the digit at line i, column j |
| GridLoader.DigitLines | doku-solver/grid/GridLoader.cs:14 | one line per row, one digit per cell |
| GridLoader.GetGridDigitLines | doku-solver/grid/GridLoader.cs:10-16 | a square board of digits written line by line loads back as itself |
| GridLoader.GetGridRejects | doku-solver/grid/GridLoader.cs:14 | a short line or a non-digit among the first L characters makes the load fail |
| Text.DigitValue | doku-solver/grid/GridLoader.cs:14 | a digit character denotes a value below 10 |
| Text.DigitChar | doku-solver/grid/GridLoader.cs:14 | the character of a digit value is a digit denoting that value |
| Text.NatDigits | doku-solver/grid/GridIO.cs:74 | decimal digits without a leading zero |
| Text.DigitsRoundTrip | doku-solver/grid/GridIO.cs:74 | reading back the digits of n gives n |
| Text.Decimal | doku-solver/grid/GridIO.cs:74 | `ToString()` starts with '-' exactly for negatives; otherwise all digits |
| Text.ParseInt | doku-solver/V2.cs:117 | a parse only succeeds on a non-empty text |
| Text.ParseDecimal | doku-solver/V2.cs:117 | what `ToString()` writes, the parser reads back |
| Text.TrimStart | doku-solver/V2.cs:117 | the surrounding white space `short.Parse` allows is stripped from the front: a suffix that starts with no white space |
| Text.TrimEnd | doku-solver/V2.cs:117 | the same at the back: a prefix that ends with no white space |
| Text.ParseShort | doku-solver/V2.cs:117 | `short.Parse` yields only values in -32768..32767; overflow and malformed text are failures |
| Text.ParseShortDecimal | doku-solver/V2.cs:117 | every 16-bit value survives `ToString()` and `short.Parse` |
| Text.FindChar | doku-solver/V2.cs:135-136 | the first index holding the separator, or the length when there is none |
| Text.SplitRef | doku-solver/V2.cs:132-146 | no field holds the separator |
| Text.Terminated | doku-solver/grid/GridIO.cs:72-76 | at least one character per field |
| Text.FindCharAfter | doku-solver/V2.cs:135-136 | in head + sep + rest with no sep in head, the first separator is the one after head |
| Text.SplitCons | doku-solver/V2.cs:136-138 | a separator-free field, the separator and a rest split as that field and then the split of the rest |
| Text.SplitTerminated | doku-solver/V2.cs:132-146 | splitting a separator-terminated text gives back its fields |
| Text.SplitSingle | doku-solver/V2.cs:139-140 | a non-empty text free of the separator is a single field |
| Text.SplitJoin | doku-solver/V2.cs:132-146 | splitting joined fields gives them back when the last field is non-empty |
| Text.JoinSplit | doku-solver/V2.cs:132-146 | joining the fields of a text that does not end in the separator rebuilds the text |
| Text.TerminatedSplit | doku-solver/V2.cs:132-146 | terminating the fields of a text that ends in the separator rebuilds the text |
| Text.StdSplit | doku-solver/Main.cs:189 | `String.Split` gives at least one field, none holding the separator |
| Text.SplitRefIsTrimmedStdSplit | doku-solver/V2.cs:132-146 | the hand-written splitter is `String.Split` with the final field dropped when it is empty |
| Text.StdSplitJoin | doku-solver/Main.cs:189 | `String.Split` cuts joined fields back into the fields, empty ones included |
| Legacy.FillPercentage | doku-solver/Main.cs:325-332 | the percentage lies in 0..100 and is the floor of filled*100/N² |
| Legacy.PercentOf | doku-solver/Main.cs:331 | the floor of count*100/total lies in 0..100 |
| Legacy.PercentMonotone | doku-solver/Main.cs:331 | more filled cells never give a lower percentage |
| Legacy.FillPercentageFacts | doku-solver/Main.cs:325-332 | an empty board is 0 %, a full non-empty one 100 %, and keeping every filled cell never lowers the percentage |
| Legacy.GetFillPercentage | doku-solver/V2.cs:227-235 | the counting loops compute the fill percentage |
| Legacy.OneBlankPercentage | doku-solver/Main.cs:331 | one blank on a 9 x 9 board reads as 98 % |
| Legacy.IsOutOfBounds | doku-solver/Main.cs:461-463 | true exactly when the position lies off the board |
| Legacy.StepsLeaveBoard | doku-solver/Main.cs:425-463 | `Next` leaves the board exactly from the bottom-right cell (where `HasNext` fails), `Previous` exactly from the origin (where `HasPrevious` fails) |
| Legacy.SubString | doku-solver/V2.cs:155-160 | the characters start..end, both included; the empty string when end < start |
| Legacy.SplitString | doku-solver/V2.cs:132-146 | the loop computes the reference split of the text |
| Legacy.SplitCount | doku-solver/V2.cs:132-146 | one field per separator, plus one for a final field that does not end in a separator |
| Legacy.SplitAtSeparator | doku-solver/V2.cs:136-138 | a separator after a separator-free stretch closes that stretch as the next field |
| Legacy.SplitFinalField | doku-solver/V2.cs:139-140 | a non-empty separator-free tail is the last field |
| Legacy.SmartRun | doku-solver/Main.cs:552-572 | a board handed back has reached the target fill or passes `IsSolved`; None means none of the boards at rounds 0..fuel-1 reached the target |
| Legacy.V2Step | doku-solver/V2.cs:170-184 | one round keeps the board's size and shape and every filled cell |
| Legacy.V2Run | doku-solver/V2.cs:167-186 | a board handed back passes `IsSolved` |
| Legacy.LoadFields | doku-solver/V2.cs:115-122 | loading succeeds exactly when every field parses as a 16-bit number, and the grid has side floor(sqrt(count)) |
| Legacy.LoadTxtV2 | doku-solver/V2.cs:111-124 | loading succeeds exactly when every space-separated field of the text parses; the result is square |
| Legacy.LoadTxtMain | doku-solver/Main.cs:187-196 | a file with no line fails; otherwise loading succeeds exactly when every field of the first line parses; the result is square |
| Legacy.SmartRunFacts | doku-solver/Main.cs:552-572 | the result keeps every given, is sound from sound givens, and has reached the target or is solved; a board already at the target comes back untouched |
| Legacy.SmartRunWritesForced | doku-solver/Main.cs:556-570 | every value the loop writes is the one any solution of the givens has there |
| Legacy.SmartRunStuck | doku-solver/Main.cs:556-570 | below the target, an unsolved board no pass changes is never handed back |
| Legacy.V2RunFacts | doku-solver/V2.cs:167-186 | what the loop leaves passes `IsSolved` and keeps every given; from sound givens it is a solution |
| Legacy.V2RunStuckAboveTarget | doku-solver/V2.cs:170-185 | once the fill is above the target and the board is unsolved, the loop never ends |
| Legacy.ParseShorts | doku-solver/V2.cs:115-117 | success parses every field in order; failure names a field that does not parse |
| Legacy.LoadFieldsFacts | doku-solver/V2.cs:114-123 | loading fails exactly when some field does not parse; otherwise the grid has side floor(sqrt(count)) and cell (i, j) is field i*side + j |
| Legacy.UnflattenParsed | doku-solver/V2.cs:118-122 | the unflatten loops put field i*side + j at (i, j) |
| Legacy.DecimalFields | doku-solver/Main.cs:189 | one decimal text per value, in order |
| Legacy.ParseShortsDecimals | doku-solver/Main.cs:189 | 16-bit values written as decimals parse back |
| Legacy.GridTextFields | doku-solver/Main.cs:189-194 | a grid's written fields are one per cell, none holding a space, and parse back to the flat list |
| Legacy.LoadTxtRoundTrip | doku-solver/Main.cs:187-196 | a non-empty grid of 16-bit values written as one space-separated line loads back as itself, through both Main.cs's and V2.cs's loader |
| LegacyBackTrack.PrecedesNext | doku-solver/Main.cs:425-431 | `Next` from a cell stays on the walk, and the cells before it are the cells before p plus p |
| LegacyBackTrack.Backtrack | doku-solver/Main.cs:493-517 | keeps size and shape; a failed search (null) hands the board back as it came in |
| LegacyBackTrack.TryCandidates | doku-solver/Main.cs:506-516 | when every candidate fails, the board comes back unchanged |
| LegacyBackTrack.Place | doku-solver/Main.cs:507-512 | a failed placement is reset to 0, leaving the board unchanged |
| LegacyBackTrack.Solve | doku-solver/Main.cs:480-483 | a returned board keeps size and shape |
| LegacyBackTrack.BacktrackFrame | doku-solver/Main.cs:493-517 | a search from p keeps every given and every cell before p; on success the target is reached or every cell from p on, the bottom-right one included, is filled |
| LegacyBackTrack.TryFrame | doku-solver/Main.cs:506-516 | the candidate loop keeps the same cells and on success reaches the target or fills p and every later cell |
| LegacyBackTrack.PlaceFrame | doku-solver/Main.cs:507-512 | the same for one accepted value and its recursion |
| LegacyBackTrack.StepFrame | doku-solver/Main.cs:508-511 | a successful recursion after writing at p keeps the pinned cells and fills p and later cells unless the target was reached |
| LegacyBackTrack.BacktrackSound | doku-solver/Main.cs:493-517 | every write of the search keeps a sound board sound |
| LegacyBackTrack.TrySound | doku-solver/Main.cs:506-514 | the candidate loop keeps a sound board sound |
| LegacyBackTrack.FullBoardKept | doku-solver/Main.cs:497-504 | a board with no blank is walked to the end and handed back as it is |
| LegacyBackTrack.SolveFacts | doku-solver/Main.cs:480-517 | a returned board keeps every given, is sound from sound givens, and reached the target or is full; from sound givens and a target above 100 it is a solution; a board at the target or full comes back as is |

## Left out

- File and console I/O are left out: `File.ReadAllText`/`ReadAllLines`/`WriteAllText`, `Directory.CreateDirectory`, `Console.WriteLine`. Each reader takes the file's text or lines as input, and each writer produces the text it would write.
- JSON (de)serialisation is left out: the model starts from the flat `short[]` lists (`GridStore.ImportGrids`, `GridStore.ExportGrids`). `ExportJsonGrid` and `GenerateExportJsonGrids` are the generator followed by that export plus I/O.
- The UI, the `Algorithm` registry, `DokuTimer`, `Tester` and `DokuSolver` are callers of the core. They are not part of this model.
- The random solvers (`RandomBruteForce`, Main.cs's `Algorithm.BruteForce`, V2's `SolveBruteforce`) are left out, as is `Factorial`, which is only used in a comment. Main.cs's `LoadCsv` is a stub that returns null and is left out too.
- `random.Next` is an argument. `Generator.RandomBelow` maps a caller-supplied choice into [0, n), and every draw of the generator is a number or a list of numbers passed in.
- `Generator.GenerateUnsolved`: the retry loop of Generator.cs lines 12-14 (call `GenerateSolvedGrid` until it is not null) is left out. The function takes an already solved board, and carve attempts are a finite list that ends in `None` when it runs out.
- `BruteForce.Run`, `Legacy.SmartRun`, `Legacy.V2Run`: loops the source does not bound run for at most `fuel` passes. `None` stands for "still running after `fuel` passes", so the model cannot tell a loop that never ends from one that needs more fuel. Non-termination is proved as "None for every fuel".
- `Legacy.FillPercentage`: computed as the exact floor of filled*100/N². The source computes `(int)((double)filled / (N*N) * 100)`, and the double product can fall just below an integer: 29 filled cells of 100 give 28 there. That rounding, and the NaN the source casts on an empty board, are not modelled; the model returns 0 for an empty board.
- 16-bit storage: `GridStore.ToShort` models the `(short)` cast of `Grid.SetOnPosition`/`SetOnCursor`. The solvers are modelled writing their values 1..N directly; these stay within 16 bits for any board that fits in memory. Main.cs's `short` cursor coordinates are modelled as unbounded integers.
- Aliasing: `BruteForce` and `OtherBackTrack` write to the caller's array, and V2's routines have no return value. The model returns the board they leave; that it is the caller's own array is not modelled.
- The cursor of a grid a solver returns is not tracked. `BackTrack.Solve` moves it; no caller reads it afterwards.
- `BackTrack._maxDeep` is stored and never read, so `BackTrack.Solve` takes no budget.
- Exceptions are modelled as `None` results: `short.Parse` and `int.Parse` on malformed or out-of-range text, and reading past the end of a short line in `GridLoader`. The model does not distinguish the exception types.
- Boards whose side N is not a multiple of floor(sqrt(N)), such as 5 x 5, can come out of the loaders (`Legacy.LoadFields`, `GridStore.Unflatten`, `GridLoader.GetGrid`). Solving one is out of scope. Every solver and candidate member requires `Board.IsWellFormed`, because on such a board the box scans of Solver.cs:24-31 can index past the array's edge, where the source throws.
- `Legacy.HasPrevious` carries no contract of its own. Its meaning is stated in `Legacy.StepsLeaveBoard`.

## Findings

| source | as written | input that shows it | evidently intended | confidence | as-written member | corrected member |
|---|---|---|---|---|---|---|
| doku-solver/doku/solvers/algorithms/BackTrack.cs:20 | `if (!grid.Cursor.HasNext()) return true;` comes before the cell is examined, so the bottom-right cell is never filled | any valid 4 x 4 solution with its bottom-right cell set to 0: `Solve` reports success and returns the board with that cell still 0 | visit the bottom-right cell as well, and succeed only after it | not executed | BackTrack.LastBlankStaysBlank | BackTrack.SolveFixedFills |
| doku-solver/doku/solvers/algorithms/SlotPerSlot.cs:11 | `while (targetGrid.Cursor.HasNext())` stops before visiting the bottom-right cell, so a pass never fills it | a valid 4 x 4 solution with its bottom-right cell set to 0: the cell's only candidate is its solved value, yet `Solve(grid, 100)` returns the board unfilled | every cell, the last one included, is visited once per pass | not executed | SlotPerSlot.LastCellNeverFilled | SlotPerSlot.FixedPassFillsLastCell |
| doku-solver/doku/solvers/algorithms/BruteForce.cs:6-26 | `maxIterations` is never read, and the loop runs until `IsSolved` | the empty 4 x 4 board: every cell has 4 candidates, no pass writes anything, and the loop never ends, whatever `maxIterations` is | stop after `maxIterations` passes, as `SlotPerSlot` does | not executed | BruteForce.EmptyBoardNeverFinishes | BruteForce.SolveBoundedFacts |

The generator calls the solvers as written:

- `Generator.GenerateSolvedGrid` completes its seeded board with `BackTrack.Solve`. On a seeded board the bottom-right cell is given, so `BackTrack.FixedAgrees` shows the search as written gives the corrected search's result. That result is a solution whenever it is full (`BackTrack.SolveFixedIsSolution`).
- `Generator.GenerateUnsolved` ends its loop on `IsSolved(SlotPerSlot.Solve(grid, 100))` as written. A carve that leaves only the bottom-right cell blank therefore never counts as solved and is handed out, even though `SlotPerSlot.FixedPassFillsLastCell` shows the corrected solver fills it.

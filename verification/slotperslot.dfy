/** The forced-singles solver of doku/solvers/algorithms/SlotPerSlot.cs: sweep
    a copy of the board in row-major order, give every blank cell whose
    candidate list holds a single value that value, and repeat the sweep until
    the board is full or the pass budget is spent. */
module SlotPerSlot {
  import opened Board
  import opened Positions
  import opened Doku

  // ------------------------------------------------------------- one cell

  /** What a pass does at cell p: a blank cell with exactly one candidate
      gets it; any other cell is left alone. */
  function Forced(g: Matrix, p: Position): (g': Matrix)
    requires IsWellFormed(g) && InRange(p, |g|)
    ensures IsWellFormed(g') && |g'| == |g|
  {
    if At(g, p) != 0 then g
    else
      var c := GetSlotPossibilities(g, p.row, p.column);
      if |c| == 1 then Put(g, p, c[0]) else g
  }

  /** Only a blank p can change, and every other cell keeps its value. */
  lemma ForcedFrame(g: Matrix, p: Position, x: Position)
    requires IsWellFormed(g) && InRange(p, |g|) && InRange(x, |g|)
    requires x != p || At(g, p) != 0
    ensures At(Forced(g, p), x) == At(g, x)
  {
    var c := GetSlotPossibilities(g, p.row, p.column);
    if At(g, p) == 0 && |c| == 1 {
      PutAt(g, p, c[0], x);
    }
  }

  /** The value a pass writes is one the cell's row, column and box lack. */
  lemma ForcedSound(g: Matrix, p: Position)
    requires Sound(g) && InRange(p, |g|)
    ensures Sound(Forced(g, p))
  {
    var c := GetSlotPossibilities(g, p.row, p.column);
    if At(g, p) == 0 && |c| == 1 {
      assert c[0] in c;
      SoundAfterPlace(g, p.row, p.column, c[0]);
    }
  }

  /** A blank cell of a board some solution refines has the solution's value
      among its candidates; when it is the only candidate, it is the one
      written. So the pass never strays from any solution of the givens. */
  lemma ForcedKeepsSolution(g: Matrix, p: Position, s: Matrix)
    requires IsWellFormed(g) && InRange(p, |g|) && IsSolution(s) && Refines(g, s)
    ensures Refines(Forced(g, p), s)
  {
    var c := GetSlotPossibilities(g, p.row, p.column);
    if At(g, p) == 0 && |c| == 1 {
      SolutionValueFits(g, s, p.row, p.column);
      assert s[p.row][p.column] in c;
      var g' := Put(g, p, c[0]);
      forall i, j | InBounds(g', i, j) && g'[i][j] != 0
        ensures s[i][j] == g'[i][j]
      {
        PutAt(g, p, c[0], Position(i, j));
      }
    }
  }

  // ---------------------------------------------------------------- passes

  /** The inner `while (Cursor.HasNext())` loop from p: each cell it visits
      gets `Forced`, a write visible to every later cell, and the cursor moves
      on. The loop exits on reaching the bottom-right cell before visiting
      it; with `fixLast` that cell is visited as well (the corrected pass). */
  function SweepFrom(g: Matrix, p: Position, fixLast: bool): (r: Matrix)
    requires IsWellFormed(g) && InRange(p, |g|)
    ensures IsWellFormed(r) && |r| == |g|
    decreases |g| - p.row, |g| - p.column
  {
    if !HasNext(CursorAt(p.row, p.column, |g|)) then
      if fixLast then Forced(g, p) else g
    else SweepFrom(Forced(g, p), After(p, |g|), fixLast)
  }

  /** A board with a blank cell is not empty, so a pass has a cell to start from. */
  lemma BlankMeansCells(g: Matrix)
    requires IsSquare(g) && !IsFilled(g)
    ensures |g| > 0
  {
    var i, j :| InBounds(g, i, j) && g[i][j] == 0;
  }

  /** The outer `while (!IsFilled(targetGrid) && iterations < maxIterations)`
      loop, `done` passes in; every pass starts with the cursor reset to the
      origin. */
  function Passes(g: Matrix, done: int, maxIterations: int, fixLast: bool): (r: Matrix)
    requires IsWellFormed(g)
    ensures IsWellFormed(r) && |r| == |g|
    decreases maxIterations - done
  {
    if IsFilled(g) || done >= maxIterations then g
    else
      BlankMeansCells(g);
      Passes(SweepFrom(g, Origin(), fixLast), done + 1, maxIterations, fixLast)
  }

  /** `Solve(grid, maxIterations)`: the passes run on a copy of the board,
      which is returned; the argument is never written. */
  function Solve(g: Matrix, maxIterations: int): (r: Matrix)
    requires IsWellFormed(g)
    ensures IsWellFormed(r) && |r| == |g|
  {
    Passes(g, 0, maxIterations, false)
  }

  /** The pass with the bottom-right cell visited too. */
  function SolveFixed(g: Matrix, maxIterations: int): (r: Matrix)
    requires IsWellFormed(g)
    ensures IsWellFormed(r) && |r| == |g|
  {
    Passes(g, 0, maxIterations, true)
  }

  // ---------------------------------------------------------------- frame

  /** A pass keeps every filled cell, so the number of filled cells never
      drops; as written, it never touches the bottom-right cell. */
  lemma {:induction false} SweepRefines(g: Matrix, p: Position, fixLast: bool)
    requires IsWellFormed(g) && InRange(p, |g|)
    ensures Refines(g, SweepFrom(g, p, fixLast))
    ensures !fixLast ==> At(SweepFrom(g, p, fixLast), Last(|g|)) == At(g, Last(|g|))
    decreases |g| - p.row, |g| - p.column
  {
    var n := |g|;
    LastIsLast(p, n);
    var g1 := Forced(g, p);
    assert Refines(g, g1) by {
      forall i, j | InBounds(g, i, j) && g[i][j] != 0
        ensures g1[i][j] == g[i][j]
      {
        ForcedFrame(g, p, Position(i, j));
      }
    }
    if HasNext(CursorAt(p.row, p.column, n)) {
      SweepRefines(g1, After(p, n), fixLast);
      RefinesTransitive(g, g1, SweepFrom(g1, After(p, n), fixLast));
      ForcedFrame(g, p, Last(n));
    }
  }

  lemma {:induction false} SweepSound(g: Matrix, p: Position, fixLast: bool)
    requires Sound(g) && InRange(p, |g|)
    ensures Sound(SweepFrom(g, p, fixLast))
    decreases |g| - p.row, |g| - p.column
  {
    ForcedSound(g, p);
    if HasNext(CursorAt(p.row, p.column, |g|)) {
      SweepSound(Forced(g, p), After(p, |g|), fixLast);
    }
  }

  lemma {:induction false} SweepKeepsSolution(g: Matrix, p: Position, fixLast: bool, s: Matrix)
    requires IsWellFormed(g) && InRange(p, |g|) && IsSolution(s) && Refines(g, s)
    ensures Refines(SweepFrom(g, p, fixLast), s)
    decreases |g| - p.row, |g| - p.column
  {
    ForcedKeepsSolution(g, p, s);
    if HasNext(CursorAt(p.row, p.column, |g|)) {
      SweepKeepsSolution(Forced(g, p), After(p, |g|), fixLast, s);
    }
  }

  // -------------------------------------------------------- whole solver

  /** `iterations` passes of the sweep from the origin, the reference the
      loop is measured against. */
  function Sweeps(g: Matrix, iterations: nat, fixLast: bool): (r: Matrix)
    requires IsWellFormed(g)
    ensures IsWellFormed(r) && |r| == |g|
    decreases iterations
  {
    if iterations == 0 || |g| == 0 then g
    else Sweeps(SweepFrom(g, Origin(), fixLast), iterations - 1, fixLast)
  }

  /** Some cell is still blank after `u` passes. */
  predicate BlankAfter(g: Matrix, u: nat, fixLast: bool)
    requires IsWellFormed(g)
  {
    !IsFilled(Sweeps(g, u, fixLast))
  }

  /** The loop stops at the first full board or after `maxIterations`
      passes, whichever comes first: when the first t passes leave blanks
      and pass t fills the board or spends the budget, the loop's board is
      the board after t passes. */
  lemma {:induction false} PassesAreSweeps(g: Matrix, done: int, maxIterations: int, fixLast: bool, t: nat)
    requires IsWellFormed(g) && done + t <= maxIterations
    requires forall u: nat :: u < t ==> BlankAfter(g, u, fixLast)
    requires IsFilled(Sweeps(g, t, fixLast)) || done + t == maxIterations
    ensures Passes(g, done, maxIterations, fixLast) == Sweeps(g, t, fixLast)
    decreases t
  {
    if t == 0 {
      assert Sweeps(g, 0, fixLast) == g;
      assert IsFilled(g) || done >= maxIterations;
    } else {
      PassesShift(g, done, maxIterations, fixLast, t);
      PassesAreSweeps(SweepFrom(g, Origin(), fixLast), done + 1, maxIterations, fixLast, t - 1);
    }
  }

  /** After one pass over a board with a blank, both the loop and the
      reference continue from the board that pass leaves. */
  lemma PassesShift(g: Matrix, done: int, maxIterations: int, fixLast: bool, t: nat)
    requires IsWellFormed(g) && done + t <= maxIterations && t > 0
    requires forall u: nat :: u < t ==> BlankAfter(g, u, fixLast)
    requires IsFilled(Sweeps(g, t, fixLast)) || done + t == maxIterations
    ensures |g| > 0
    ensures var g1 := SweepFrom(g, Origin(), fixLast);
            Passes(g, done, maxIterations, fixLast) == Passes(g1, done + 1, maxIterations, fixLast) &&
            Sweeps(g, t, fixLast) == Sweeps(g1, t - 1, fixLast) &&
            (IsFilled(Sweeps(g1, t - 1, fixLast)) || done + 1 + (t - 1) == maxIterations) &&
            forall u: nat :: u < t - 1 ==> BlankAfter(g1, u, fixLast)
  {
    assert BlankAfter(g, 0, fixLast);
    BlankMeansCells(g);
    var g1 := SweepFrom(g, Origin(), fixLast);
    forall u: nat | u < t - 1
      ensures BlankAfter(g1, u, fixLast)
    {
      assert BlankAfter(g, u + 1, fixLast);
      assert Sweeps(g, u + 1, fixLast) == Sweeps(g1, u, fixLast);
    }
  }

  /** A budget of zero or less, or a board that is already full, gives the
      copy back as it came. A convenience fact: it follows from the
      definitions alone. */
  lemma SolveIdle(g: Matrix, maxIterations: int)
    requires IsWellFormed(g) && (maxIterations <= 0 || IsFilled(g))
    ensures Solve(g, maxIterations) == g
  {
  }

  /** The loop keeps every given cell and, as written, the bottom-right cell;
      it keeps a sound board sound and never strays from a solution of the
      givens. */
  lemma {:induction false} PassesFacts(g: Matrix, done: int, maxIterations: int, fixLast: bool)
    requires IsWellFormed(g)
    ensures var r := Passes(g, done, maxIterations, fixLast);
            Refines(g, r) && (!fixLast && |g| > 0 ==> At(r, Last(|g|)) == At(g, Last(|g|))) &&
            (Sound(g) ==> Sound(r))
    decreases maxIterations - done
  {
    if !(IsFilled(g) || done >= maxIterations) {
      BlankMeansCells(g);
      var g1 := SweepFrom(g, Origin(), fixLast);
      SweepRefines(g, Origin(), fixLast);
      if Sound(g) {
        SweepSound(g, Origin(), fixLast);
      }
      PassesFacts(g1, done + 1, maxIterations, fixLast);
      RefinesTransitive(g, g1, Passes(g1, done + 1, maxIterations, fixLast));
    }
  }

  lemma {:induction false} PassesKeepSolution(g: Matrix, done: int, maxIterations: int, fixLast: bool, s: Matrix)
    requires IsWellFormed(g) && IsSolution(s) && Refines(g, s)
    ensures Refines(Passes(g, done, maxIterations, fixLast), s)
    decreases maxIterations - done
  {
    if !(IsFilled(g) || done >= maxIterations) {
      BlankMeansCells(g);
      SweepKeepsSolution(g, Origin(), fixLast, s);
      PassesKeepSolution(SweepFrom(g, Origin(), fixLast), done + 1, maxIterations, fixLast, s);
    }
  }

  /** Non-zero cells never change, the bottom-right cell never changes, a
      sound board stays sound, and a full result of a sound board is a
      solution. */
  lemma SolveFacts(g: Matrix, maxIterations: int)
    requires IsWellFormed(g)
    ensures var r := Solve(g, maxIterations);
            Refines(g, r) && (|g| > 0 ==> At(r, Last(|g|)) == At(g, Last(|g|))) &&
            FilledCount(g) <= FilledCount(r) &&
            (Sound(g) ==> Sound(r) && (IsFilled(r) ==> IsSolution(r)))
  {
    PassesFacts(g, 0, maxIterations, false);
    RefinesCount(g, Solve(g, maxIterations));
  }

  /** A full board the loop reaches from givens some solution refines is
      that solution: forced values are never wrong. */
  lemma SolveFindsTheSolution(g: Matrix, maxIterations: int, s: Matrix, fixLast: bool)
    requires IsWellFormed(g) && IsSolution(s) && Refines(g, s)
    ensures var r := Passes(g, 0, maxIterations, fixLast);
            IsFilled(r) ==> r == s
  {
    var r := Passes(g, 0, maxIterations, fixLast);
    PassesKeepSolution(g, 0, maxIterations, fixLast, s);
    if IsFilled(r) {
      forall i | 0 <= i < |r|
        ensures r[i] == s[i]
      {
        forall j | 0 <= j < |r|
          ensures r[i][j] == s[i][j]
        {
          assert r[i][j] != 0;
        }
      }
    }
  }

  // ------------------------------------------------------- the last cell

  /** The only candidate of a solution's cell once that cell is cleared is
      the solution's value. */
  lemma ClearedCellForced(s: Matrix, q: Position)
    requires IsSolution(s) && InRange(q, |s|)
    ensures GetSlotPossibilities(Put(s, q, 0), q.row, q.column) == [At(s, q)]
  {
    var g := Put(s, q, 0);
    var w := At(s, q);
    PutAt(s, q, 0, q);
    assert Refines(g, s) by {
      forall i, j | InBounds(g, i, j) && g[i][j] != 0
        ensures s[i][j] == g[i][j]
      {
        PutAt(s, q, 0, Position(i, j));
      }
    }
    SolutionValueFits(g, s, q.row, q.column);
    var c := GetSlotPossibilities(g, q.row, q.column);
    forall v | v in c
      ensures v == w
    {
      ClearedRowHolds(s, q, v);
    }
    AscendingUnique(c, [w]);
  }

  /** Every other value still sits in the row of a solution's cleared cell. */
  lemma ClearedRowHolds(s: Matrix, q: Position, v: int)
    requires IsSolution(s) && InRange(q, |s|) && 1 <= v <= |s|
    ensures v != At(s, q) ==> InRow(Put(s, q, 0), q.row, v)
  {
    SolutionRowCovers(s, q.row, v);
    var j :| 0 <= j < |s| && s[q.row][j] == v;
    PutAt(s, q, 0, Position(q.row, j));
  }

  /** Over cells that are all filled, a pass writes nothing; the corrected
      pass still handles the bottom-right cell. */
  lemma {:induction false} SweepOverGivens(g: Matrix, p: Position, fixLast: bool)
    requires IsWellFormed(g) && InRange(p, |g|)
    requires forall q :: InRange(q, |g|) && q != Last(|g|) ==> At(g, q) != 0
    ensures SweepFrom(g, p, fixLast) == if fixLast then Forced(g, Last(|g|)) else g
    decreases |g| - p.row, |g| - p.column
  {
    LastIsLast(p, |g|);
    if HasNext(CursorAt(p.row, p.column, |g|)) {
      SweepOverGivens(g, After(p, |g|), fixLast);
    }
  }

  /** The discrepancy: clear the bottom-right cell of a solution and the
      passes as written never fill it, whatever the budget, though it has a
      single candidate; the board comes back unfilled. */
  lemma LastCellNeverFilled(s: Matrix, maxIterations: int)
    requires IsSolution(s) && |s| > 0
    ensures var g := Put(s, Last(|s|), 0);
            GetSlotPossibilities(g, |s| - 1, |s| - 1) == [At(s, Last(|s|))] &&
            Solve(g, maxIterations) == g && !IsFilled(Solve(g, maxIterations))
  {
    var n := |s|;
    var g := Put(s, Last(n), 0);
    ClearedCellForced(s, Last(n));
    forall q | InRange(q, n) && q != Last(n)
      ensures At(g, q) != 0
    {
      PutAt(s, Last(n), 0, q);
    }
    PutAt(s, Last(n), 0, Last(n));
    SweepOverGivens(g, Origin(), false);
    SolveFixesNothingAsWritten(g, 0, maxIterations);
  }

  lemma {:induction false} SolveFixesNothingAsWritten(g: Matrix, done: int, maxIterations: int)
    requires IsWellFormed(g) && |g| > 0 && SweepFrom(g, Origin(), false) == g
    ensures Passes(g, done, maxIterations, false) == g
    decreases maxIterations - done
  {
    if !(IsFilled(g) || done >= maxIterations) {
      SolveFixesNothingAsWritten(g, done + 1, maxIterations);
    }
  }

  /** The corrected pass fills that cell in its first pass and hands back
      the solution. */
  lemma FixedPassFillsLastCell(s: Matrix, maxIterations: int)
    requires IsSolution(s) && |s| > 0 && maxIterations >= 1
    ensures SolveFixed(Put(s, Last(|s|), 0), maxIterations) == s
  {
    var g := Put(s, Last(|s|), 0);
    FirstFixedPassFills(s);
    PutAt(s, Last(|s|), 0, Last(|s|));
    assert !IsFilled(g);
    assert Passes(g, 0, maxIterations, true) == Passes(s, 1, maxIterations, true);
    assert IsFilled(s);
  }

  lemma FirstFixedPassFills(s: Matrix)
    requires IsSolution(s) && |s| > 0
    ensures SweepFrom(Put(s, Last(|s|), 0), Origin(), true) == s
  {
    var n := |s|;
    var g := Put(s, Last(n), 0);
    ClearedCellForced(s, Last(n));
    forall q | InRange(q, n) && q != Last(n)
      ensures At(g, q) != 0
    {
      PutAt(s, Last(n), 0, q);
    }
    PutAt(s, Last(n), 0, Last(n));
    SweepOverGivens(g, Origin(), true);
    PutTwice(s, Last(n), 0, At(s, Last(n)));
    PutSame(s, Last(n));
  }
}

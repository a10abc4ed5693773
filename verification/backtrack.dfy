/** The recursive backtracking solver of doku/solvers/algorithms/BackTrack.cs.

    `Backtrack(grid, row, column)` walks the board in row-major order. At the
    bottom-right cell `HasNext()` is false and the walk reports success at
    once, without looking at that cell: a blank there is never filled. The
    flag `fixLast` selects between that behaviour (false, the code as written)
    and the evidently intended one (true), where the last blank gets the
    smallest value the scans accept, exactly as the loop would give it if the
    recursion stopped one cell later. */
module BackTrack {
  import opened Arith
  import opened Board
  import opened Positions
  import Solver

  // --------------------------------------------------------------- scans

  /** The first loop of `IsPresentForSlot`: row cell (r, i) and column cell
      (i, c) side by side, from i on. */
  function CrossScan(g: Matrix, r: int, c: int, v: int, i: int): bool
    requires IsSquare(g) && InBounds(g, r, c) && 0 <= i <= |g|
    decreases |g| - i
  {
    if i == |g| then false
    else g[r][i] == v || g[i][c] == v || CrossScan(g, r, c, v, i + 1)
  }

  /** The loop finds v exactly when it sits in the row or the column from i on. */
  lemma {:induction false} CrossScanFinds(g: Matrix, r: int, c: int, v: int, i: int)
    requires IsSquare(g) && InBounds(g, r, c) && 0 <= i <= |g|
    ensures CrossScan(g, r, c, v, i) <==> exists j :: i <= j < |g| && (g[r][j] == v || g[j][c] == v)
    decreases |g| - i
  {
    if i < |g| {
      CrossScanFinds(g, r, c, v, i + 1);
    }
  }

  /** `IsPresentForSlot`: the value already sits in the cell's row, column or
      box. The box loop is the same scan as `Solver.IsInSection`. */
  function IsPresentForSlot(g: Matrix, p: Position, v: int): (b: bool)
    requires IsWellFormed(g) && InRange(p, |g|)
    ensures b <==> (exists j :: 0 <= j < |g| && (g[p.row][j] == v || g[j][p.column] == v)) ||
                   Solver.IsInSection(g, v, p.row, p.column)
  {
    CrossScanFinds(g, p.row, p.column, v, 0);
    CrossScan(g, p.row, p.column, v, 0) || Solver.IsInSection(g, v, p.row, p.column)
  }

  /** The scans report presence exactly when `IsValidPlacement` refuses v. */
  lemma PresentIffInvalid(g: Matrix, p: Position, v: int)
    requires IsWellFormed(g) && InRange(p, |g|)
    ensures IsPresentForSlot(g, p, v) <==> !Solver.IsValidPlacement(g, v, p.row, p.column)
  {
    CrossScanFinds(g, p.row, p.column, v, 0);
    if InRow(g, p.row, v) {
      var j :| 0 <= j < |g| && g[p.row][j] == v;
    }
    if InColumn(g, p.column, v) {
      var j :| 0 <= j < |g| && g[j][p.column] == v;
    }
  }

  // -------------------------------------------------------------- search

  /** `Backtrack(grid, row, column)`: success or failure and the board the
      search leaves behind. A failed search restores every cell it wrote. */
  function Backtrack(g: Matrix, p: Position, fixLast: bool): (o: Outcome)
    requires IsWellFormed(g) && (InRange(p, |g|) || p == Origin())
    ensures IsWellFormed(o.grid) && |o.grid| == |g|
    ensures !o.solved ==> o.grid == g
    decreases |g| - p.row, |g| - p.column, 1, 0, 0
  {
    var n := |g|;
    if !HasNext(CursorAt(p.row, p.column, n)) then
      if fixLast && n > 0 && At(g, p) == 0 then FillLast(g, p, 1) else Outcome(true, g)
    else
      if At(g, p) != 0 then Backtrack(g, After(p, n), fixLast)
      else
        PutSame(g, p);
        TryCandidates(g, p, 1, fixLast)
  }

  /** The `for (i = v; i <= N; i++)` loop of `Backtrack` at blank cell p: each
      value the scans accept is written and the rest of the board searched;
      after the last value the cell is cleared and the search fails. */
  function TryCandidates(g: Matrix, p: Position, v: int, fixLast: bool): (o: Outcome)
    requires IsWellFormed(g) && InRange(p, |g|) && HasNext(CursorAt(p.row, p.column, |g|)) && 1 <= v
    ensures IsWellFormed(o.grid) && |o.grid| == |g|
    ensures !o.solved ==> o.grid == Put(g, p, 0)
    decreases |g| - p.row, |g| - p.column, 0, |g| + 1 - v, 1
  {
    if v > |g| then Outcome(false, Put(g, p, 0))
    else if IsPresentForSlot(g, p, v) then TryCandidates(g, p, v + 1, fixLast)
    else Place(g, p, v, fixLast)
  }

  /** One accepted value v at p: write it, search the rest of the board, and
      on failure go on with the next value (the search has already put the
      board back, with v still at p). */
  function Place(g: Matrix, p: Position, v: int, fixLast: bool): (o: Outcome)
    requires IsWellFormed(g) && InRange(p, |g|) && HasNext(CursorAt(p.row, p.column, |g|))
    requires 1 <= v <= |g| && !IsPresentForSlot(g, p, v)
    ensures IsWellFormed(o.grid) && |o.grid| == |g|
    ensures !o.solved ==> o.grid == Put(g, p, 0)
    decreases |g| - p.row, |g| - p.column, 0, |g| + 1 - v, 0
  {
    var o := Backtrack(Put(g, p, v), After(p, |g|), fixLast);
    if o.solved then o
    else
      PutTwice(g, p, v, 0);
      TryCandidates(o.grid, p, v + 1, fixLast)
  }

  /** The corrected base case: the smallest value the scans accept goes in
      the last cell; none fits, the search fails and nothing changes. */
  function FillLast(g: Matrix, p: Position, v: int): (o: Outcome)
    requires IsWellFormed(g) && InRange(p, |g|) && 1 <= v
    ensures IsWellFormed(o.grid) && |o.grid| == |g|
    ensures !o.solved ==> o.grid == g
    ensures o.solved ==> v <= At(o.grid, p) <= |g| &&
                         !IsPresentForSlot(g, p, At(o.grid, p)) && o.grid == Put(g, p, At(o.grid, p))
    decreases |g| + 1 - v
  {
    if v > |g| then Outcome(false, g)
    else if !IsPresentForSlot(g, p, v) then Outcome(true, Put(g, p, v))
    else FillLast(g, p, v + 1)
  }

  /** `Solve(grid, maxIterations)`: the search runs on a copy from the
      origin; the copy is returned whether or not the search succeeded. */
  function Solve(g: Matrix): (r: Matrix)
    requires IsWellFormed(g)
    ensures IsWellFormed(r) && |r| == |g|
  {
    Backtrack(g, Origin(), false).grid
  }

  /** The search with the corrected base case. */
  function SolveFixed(g: Matrix): (o: Outcome)
    requires IsWellFormed(g)
    ensures IsWellFormed(o.grid) && |o.grid| == |g|
  {
    Backtrack(g, Origin(), true)
  }

  // ------------------------------------------------------------- frame

  /** A cell a search from p must leave alone: a given cell, a cell before
      p, or, as written, the bottom-right cell. */
  ghost predicate Pinned(g: Matrix, q: Position, p: Position, fixLast: bool)
    requires IsSquare(g) && InRange(q, |g|)
  {
    At(g, q) != 0 || Precedes(q, p) || (!fixLast && q == Last(|g|))
  }

  /** g' agrees with g on every cell pinned in g. */
  ghost predicate Keeps(g: Matrix, g': Matrix, p: Position, fixLast: bool)
    requires IsSquare(g) && IsSquare(g') && |g'| == |g|
  {
    forall q :: InRange(q, |g|) && Pinned(g, q, p, fixLast) ==> At(g', q) == At(g, q)
  }

  /** Every cell from p on is filled, save the bottom-right one as written. */
  ghost predicate FilledOnward(g: Matrix, p: Position, fixLast: bool)
    requires IsSquare(g)
  {
    forall q :: InRange(q, |g|) && !Precedes(q, p) && (fixLast || q != Last(|g|)) ==> At(g, q) != 0
  }

  /** A search from p keeps every pinned cell and, on success, leaves every
      cell from p on filled. */
  lemma {:induction false} BacktrackFrame(g: Matrix, p: Position, fixLast: bool)
    requires IsWellFormed(g) && InRange(p, |g|)
    ensures var o := Backtrack(g, p, fixLast);
            Keeps(g, o.grid, p, fixLast) && (o.solved ==> FilledOnward(o.grid, p, fixLast))
    decreases |g| - p.row, |g| - p.column, |g| + 2, 0
  {
    var n := |g|;
    var o := Backtrack(g, p, fixLast);
    LastIsLast(p, n);
    if !HasNext(CursorAt(p.row, p.column, n)) {
      forall q | InRange(q, n) && !Precedes(q, p)
        ensures q == p
      {
        LastIsLast(q, n);
      }
      if fixLast && At(g, p) == 0 {
        assert o == FillLast(g, p, 1);
        if o.solved {
          forall q | InRange(q, n)
            ensures At(o.grid, q) == if q == p then At(o.grid, p) else At(g, q)
          {
            PutAt(g, p, At(o.grid, p), q);
          }
        }
      }
    } else {
      var next := After(p, n);
      if At(g, p) != 0 {
        BacktrackFrame(g, next, fixLast);
        forall q | InRange(q, n)
          ensures Precedes(q, next) <==> Precedes(q, p) || q == p
        {
          PrecedesAfter(p, q, n);
        }
      } else {
        TryFrame(g, p, 1, fixLast);
        PutSame(g, p);
      }
    }
  }

  /** Trying values from v at p keeps every pinned cell other than p and, on
      success, leaves a value of at least v at p and every later cell filled. */
  lemma {:induction false} TryFrame(g: Matrix, p: Position, v: int, fixLast: bool)
    requires IsWellFormed(g) && InRange(p, |g|) && HasNext(CursorAt(p.row, p.column, |g|)) && 1 <= v
    ensures var o := TryCandidates(g, p, v, fixLast);
            Keeps(Put(g, p, 0), o.grid, p, fixLast) &&
            (o.solved ==> v <= At(o.grid, p) <= |g| && FilledOnward(o.grid, p, fixLast))
    decreases |g| - p.row, |g| - p.column, |g| + 1 - v, 1
  {
    var n := |g|;
    var g0 := Put(g, p, 0);
    var r := TryCandidates(g, p, v, fixLast);
    if v > n {
      assert r == Outcome(false, g0);
    } else if IsPresentForSlot(g, p, v) {
      assert r == TryCandidates(g, p, v + 1, fixLast);
      TryFrame(g, p, v + 1, fixLast);
      assert r.solved ==> v <= At(r.grid, p);
    } else {
      assert r == Place(g, p, v, fixLast);
      TryFramePlace(g, p, v, fixLast);
    }
  }

  /** The step of `TryFrame` where v is accepted, written, and the rest of
      the board searched. */
  lemma {:induction false} TryFramePlace(g: Matrix, p: Position, v: int, fixLast: bool)
    requires IsWellFormed(g) && InRange(p, |g|) && HasNext(CursorAt(p.row, p.column, |g|))
    requires 1 <= v <= |g| && !IsPresentForSlot(g, p, v)
    ensures var o := Place(g, p, v, fixLast);
            Keeps(Put(g, p, 0), o.grid, p, fixLast) &&
            (o.solved ==> v <= At(o.grid, p) <= |g| && FilledOnward(o.grid, p, fixLast))
    decreases |g| - p.row, |g| - p.column, |g| + 1 - v, 0
  {
    var n := |g|;
    var g1 := Put(g, p, v);
    var o := Backtrack(g1, After(p, n), fixLast);
    var r := Place(g, p, v, fixLast);
    if o.solved {
      assert r == o;
      BacktrackFrame(g1, After(p, n), fixLast);
      StepFrame(g, p, v, fixLast, o.grid);
    } else {
      assert r == TryCandidates(g1, p, v + 1, fixLast);
      TryFrame(g1, p, v + 1, fixLast);
      PutTwice(g, p, v, 0);
      assert Put(g1, p, 0) == Put(g, p, 0);
    }
  }

  /** The frame of one successful step: the search after p, started with v
      at p, kept what it had to and filled everything after p. */
  lemma StepFrame(g: Matrix, p: Position, v: int, fixLast: bool, h: Matrix)
    requires IsSquare(g) && InRange(p, |g|) && HasNext(CursorAt(p.row, p.column, |g|)) && 1 <= v <= |g|
    requires IsSquare(h) && |h| == |g|
    requires Keeps(Put(g, p, v), h, After(p, |g|), fixLast) && FilledOnward(h, After(p, |g|), fixLast)
    ensures Keeps(Put(g, p, 0), h, p, fixLast) && v <= At(h, p) <= |g| && FilledOnward(h, p, fixLast)
  {
    var n := |g|;
    var g0 := Put(g, p, 0);
    var g1 := Put(g, p, v);
    var next := After(p, n);
    LastIsLast(p, n);
    PutAt(g, p, v, p);
    assert Pinned(g1, p, next, fixLast) by {
      PrecedesAfter(p, p, n);
    }
    forall q | InRange(q, n) && Pinned(g0, q, p, fixLast)
      ensures At(h, q) == At(g0, q)
    {
      PrecedesAfter(p, q, n);
      PutAt(g, p, v, q);
      PutAt(g, p, 0, q);
    }
    forall q | InRange(q, n) && !Precedes(q, p) && (fixLast || q != Last(n))
      ensures At(h, q) != 0
    {
      PrecedesAfter(p, q, n);
    }
  }

  /** As written: on success every cell except the bottom-right one is
      filled; that one, and every given cell, is as it was. */
  lemma SolveFrame(g: Matrix)
    requires IsWellFormed(g) && |g| > 0
    ensures var o := Backtrack(g, Origin(), false);
            Refines(g, o.grid) && At(o.grid, Last(|g|)) == At(g, Last(|g|)) &&
            (o.solved ==> forall q :: InRange(q, |g|) && q != Last(|g|) ==> At(o.grid, q) != 0)
  {
    var o := Backtrack(g, Origin(), false);
    BacktrackFrame(g, Origin(), false);
    KeepsFromOrigin(g, o.grid);
    if o.solved {
      FilledFromOrigin(o.grid);
    }
  }

  /** Keeping every cell pinned at the origin, with the bottom-right cell
      left alone, keeps the givens and that cell. */
  lemma KeepsFromOrigin(g: Matrix, g': Matrix)
    requires IsWellFormed(g) && |g| > 0 && IsSquare(g') && |g'| == |g|
    requires Keeps(g, g', Origin(), false)
    ensures Refines(g, g') && At(g', Last(|g|)) == At(g, Last(|g|))
  {
    forall i, j | InBounds(g, i, j) && g[i][j] != 0
      ensures g'[i][j] == g[i][j]
    {
      var q := Position(i, j);
      assert At(g, q) != 0;
      assert Pinned(g, q, Origin(), false);
    }
    assert Pinned(g, Last(|g|), Origin(), false);
  }

  /** Filled from the origin on means every cell but the bottom-right one. */
  lemma FilledFromOrigin(g: Matrix)
    requires IsSquare(g) && |g| > 0 && FilledOnward(g, Origin(), false)
    ensures forall q :: InRange(q, |g|) && q != Last(|g|) ==> At(g, q) != 0
  {
  }

  /** With the corrected base case, success means a full board that keeps
      every given cell. */
  lemma SolveFixedFills(g: Matrix)
    requires IsWellFormed(g) && |g| > 0
    ensures var o := SolveFixed(g);
            Refines(g, o.grid) && (o.solved ==> NoZeros(o.grid))
  {
    var o := SolveFixed(g);
    BacktrackFrame(g, Origin(), true);
    forall i, j | InBounds(g, i, j) && g[i][j] != 0
      ensures o.grid[i][j] == g[i][j]
    {
      assert Pinned(g, Position(i, j), Origin(), true);
    }
    if o.solved {
      forall i, j | InBounds(o.grid, i, j)
        ensures o.grid[i][j] != 0
      {
        assert At(o.grid, Position(i, j)) != 0;
      }
    }
  }

  // ------------------------------------------------------------ validity

  /** Board conditions every write of the search keeps. */
  lemma PlaceKeepsSound(g: Matrix, p: Position, v: int)
    requires Sound(g) && InRange(p, |g|) && 1 <= v <= |g| && !IsPresentForSlot(g, p, v)
    ensures Sound(Put(g, p, v))
  {
    PresentIffInvalid(g, p, v);
    SoundAfterPlace(g, p.row, p.column, v);
  }

  lemma ClearKeepsSound(g: Matrix, p: Position)
    requires Sound(g) && InRange(p, |g|)
    ensures Sound(Put(g, p, 0))
  {
    SoundAfterClear(g, p.row, p.column);
  }

  lemma {:induction false} BacktrackSound(g: Matrix, p: Position, fixLast: bool)
    requires Sound(g) && InRange(p, |g|)
    ensures Sound(Backtrack(g, p, fixLast).grid)
    decreases |g| - p.row, |g| - p.column, |g| + 2, 0
  {
    var n := |g|;
    if !HasNext(CursorAt(p.row, p.column, n)) {
      if fixLast && At(g, p) == 0 {
        FillLastSound(g, p, 1);
      }
    } else {
      if At(g, p) != 0 {
        BacktrackSound(g, After(p, n), fixLast);
      } else {
        TrySound(g, p, 1, fixLast);
      }
    }
  }

  lemma {:induction false} TrySound(g: Matrix, p: Position, v: int, fixLast: bool)
    requires Sound(g) && InRange(p, |g|) && HasNext(CursorAt(p.row, p.column, |g|)) && 1 <= v
    ensures Sound(TryCandidates(g, p, v, fixLast).grid)
    decreases |g| - p.row, |g| - p.column, |g| + 1 - v, 1
  {
    var n := |g|;
    var r := TryCandidates(g, p, v, fixLast);
    if v > n {
      ClearKeepsSound(g, p);
      assert r.grid == Put(g, p, 0);
    } else if IsPresentForSlot(g, p, v) {
      TrySound(g, p, v + 1, fixLast);
      assert r == TryCandidates(g, p, v + 1, fixLast);
    } else {
      assert r == Place(g, p, v, fixLast);
      PlaceKeepsSound(g, p, v);
      TrySoundPlace(g, p, v, fixLast);
    }
  }

  lemma {:induction false} TrySoundPlace(g: Matrix, p: Position, v: int, fixLast: bool)
    requires IsWellFormed(g) && InRange(p, |g|) && HasNext(CursorAt(p.row, p.column, |g|))
    requires 1 <= v <= |g| && !IsPresentForSlot(g, p, v) && Sound(Put(g, p, v))
    ensures Sound(Place(g, p, v, fixLast).grid)
    decreases |g| - p.row, |g| - p.column, |g| + 1 - v, 0
  {
    var n := |g|;
    var r := Place(g, p, v, fixLast);
    var g1 := Put(g, p, v);
    var o := Backtrack(g1, After(p, n), fixLast);
    if o.solved {
      BacktrackSound(g1, After(p, n), fixLast);
      assert r == o;
    } else {
      TrySound(g1, p, v + 1, fixLast);
      assert r == TryCandidates(g1, p, v + 1, fixLast);
    }
  }

  lemma FillLastSound(g: Matrix, p: Position, v: int)
    requires Sound(g) && InRange(p, |g|) && 1 <= v
    ensures Sound(FillLast(g, p, v).grid)
  {
    var o := FillLast(g, p, v);
    if o.solved {
      PlaceKeepsSound(g, p, At(o.grid, p));
    }
  }

  /** The corrected search turns a sound board into a solution that keeps
      every given cell whenever it reports success; the search as written
      keeps the board sound whatever it reports. */
  lemma SolveFixedIsSolution(g: Matrix)
    requires Sound(g)
    ensures Sound(Solve(g)) && Refines(g, Solve(g))
    ensures Sound(SolveFixed(g).grid)
    ensures SolveFixed(g).solved ==> IsSolution(SolveFixed(g).grid) && Refines(g, SolveFixed(g).grid)
  {
    if |g| > 0 {
      BacktrackSound(g, Origin(), false);
      BacktrackSound(g, Origin(), true);
      SolveFrame(g);
      SolveFixedFills(g);
    }
  }

  // ------------------------------------------------------ the last cell

  /** Both searches agree whenever the bottom-right cell is already given. */
  lemma {:induction false} FixedAgrees(g: Matrix, p: Position)
    requires IsWellFormed(g) && InRange(p, |g|) && At(g, Last(|g|)) != 0
    ensures Backtrack(g, p, true) == Backtrack(g, p, false)
    decreases |g| - p.row, |g| - p.column, |g| + 2, 0
  {
    var n := |g|;
    LastIsLast(p, n);
    if HasNext(CursorAt(p.row, p.column, n)) {
      if At(g, p) != 0 {
        FixedAgrees(g, After(p, n));
      } else {
        TryAgrees(g, p, 1);
      }
    }
  }

  lemma {:induction false} TryAgrees(g: Matrix, p: Position, v: int)
    requires IsWellFormed(g) && InRange(p, |g|) && HasNext(CursorAt(p.row, p.column, |g|)) && 1 <= v
    requires At(g, Last(|g|)) != 0
    ensures TryCandidates(g, p, v, true) == TryCandidates(g, p, v, false)
    decreases |g| - p.row, |g| - p.column, |g| + 1 - v, 1
  {
    if v <= |g| {
      if IsPresentForSlot(g, p, v) {
        TryAgrees(g, p, v + 1);
        assert TryCandidates(g, p, v, true) == TryCandidates(g, p, v + 1, true);
        assert TryCandidates(g, p, v, false) == TryCandidates(g, p, v + 1, false);
      } else {
        PlaceAgrees(g, p, v);
        assert TryCandidates(g, p, v, true) == Place(g, p, v, true);
        assert TryCandidates(g, p, v, false) == Place(g, p, v, false);
      }
    }
  }

  lemma {:induction false} PlaceAgrees(g: Matrix, p: Position, v: int)
    requires IsWellFormed(g) && InRange(p, |g|) && HasNext(CursorAt(p.row, p.column, |g|))
    requires 1 <= v <= |g| && !IsPresentForSlot(g, p, v) && At(g, Last(|g|)) != 0
    ensures Place(g, p, v, true) == Place(g, p, v, false)
    decreases |g| - p.row, |g| - p.column, |g| + 1 - v, 0
  {
    var n := |g|;
    LastIsLast(p, n);
    var g1 := Put(g, p, v);
    var next := After(p, n);
    PutAt(g, p, v, Last(n));
    FixedAgrees(g1, next);
    var o := Backtrack(g1, next, false);
    if o.solved {
      assert Place(g, p, v, true) == o;
      assert Place(g, p, v, false) == o;
    } else {
      TryAgrees(g1, p, v + 1);
      assert Place(g, p, v, true) == TryCandidates(g1, p, v + 1, true);
      assert Place(g, p, v, false) == TryCandidates(g1, p, v + 1, false);
    }
  }

  /** A board whose only blank is the bottom-right cell: the search walks
      past every given cell and reports success, leaving the blank. */
  lemma {:induction false} WalkPastGivens(g: Matrix, p: Position)
    requires IsWellFormed(g) && InRange(p, |g|)
    requires forall q :: InRange(q, |g|) && q != Last(|g|) ==> At(g, q) != 0
    ensures Backtrack(g, p, false) == Outcome(true, g)
    decreases |g| - p.row, |g| - p.column
  {
    var n := |g|;
    LastIsLast(p, n);
    if HasNext(CursorAt(p.row, p.column, n)) {
      WalkPastGivens(g, After(p, n));
    }
  }

  /** The discrepancy: with the bottom-right cell blank and every other cell
      given, the search as written reports success and hands back the board
      with that cell still blank (`SolveFixedFills` states what the corrected
      search does). */
  lemma LastBlankStaysBlank(g: Matrix)
    requires IsWellFormed(g) && |g| > 0
    requires forall q :: InRange(q, |g|) && q != Last(|g|) ==> At(g, q) != 0
    requires At(g, Last(|g|)) == 0
    ensures var o := Backtrack(g, Origin(), false);
            o.solved && o.grid == g && At(o.grid, Last(|g|)) == 0
  {
    WalkPastGivens(g, Origin());
  }

  // --------------------------------------------------------- completeness

  /** The value sitting in p itself does not hide or reveal any other value:
      the scans at p see the same units whatever p holds besides v. */
  lemma OwnCellIgnored(g: Matrix, p: Position, u: int, v: int)
    requires IsWellFormed(g) && InRange(p, |g|) && At(g, p) == 0 && u != v && v != 0
    ensures IsPresentForSlot(Put(g, p, u), p, v) == IsPresentForSlot(g, p, v)
  {
    var h := Put(g, p, u);
    PresentIffInvalid(g, p, v);
    PresentIffInvalid(h, p, v);
    forall i, j | InBounds(g, i, j)
      ensures h[i][j] == v <==> g[i][j] == v
    {
      PutAt(g, p, u, Position(i, j));
    }
    if InRow(h, p.row, v) {
      var j :| 0 <= j < |g| && h[p.row][j] == v;
      assert g[p.row][j] == v;
    }
    if InRow(g, p.row, v) {
      var j :| 0 <= j < |g| && g[p.row][j] == v;
      assert h[p.row][j] == v;
    }
    if InColumn(h, p.column, v) {
      var i :| 0 <= i < |g| && h[i][p.column] == v;
      assert g[i][p.column] == v;
    }
    if InColumn(g, p.column, v) {
      var i :| 0 <= i < |g| && g[i][p.column] == v;
      assert h[i][p.column] == v;
    }
    var k := BoxSize(g);
    if InBox(h, p.row, p.column, v) {
      var i, j :| 0 <= i < |g| && 0 <= j < |g| && SameBox(k, i, j, p.row, p.column) && h[i][j] == v;
      assert g[i][j] == v;
    }
    if InBox(g, p.row, p.column, v) {
      var i, j :| 0 <= i < |g| && 0 <= j < |g| && SameBox(k, i, j, p.row, p.column) && g[i][j] == v;
      assert h[i][j] == v;
    }
  }

  /** At a blank cell, the solution's value is a candidate the scans accept. */
  lemma SolutionValueAbsent(g: Matrix, s: Matrix, p: Position)
    requires IsWellFormed(g) && IsSolution(s) && Refines(g, s) && InRange(p, |g|) && At(g, p) == 0
    ensures 1 <= s[p.row][p.column] <= |g| && !IsPresentForSlot(g, p, s[p.row][p.column])
  {
    SolutionValueFits(g, s, p.row, p.column);
    PresentIffInvalid(g, p, s[p.row][p.column]);
  }

  /** The corrected base case succeeds when some value from v on fits. */
  lemma {:induction false} FillLastComplete(g: Matrix, p: Position, v: int, w: int)
    requires IsWellFormed(g) && InRange(p, |g|) && 1 <= v <= w <= |g| && !IsPresentForSlot(g, p, w)
    ensures FillLast(g, p, v).solved
    decreases |g| + 1 - v
  {
    if v < w && IsPresentForSlot(g, p, v) {
      FillLastComplete(g, p, v + 1, w);
    }
  }

  /** The corrected search misses nothing: whenever some solution keeps every
      non-zero cell of the board, the search from p succeeds. */
  lemma {:induction false} BacktrackComplete(g: Matrix, s: Matrix, p: Position)
    requires IsWellFormed(g) && IsSolution(s) && Refines(g, s) && InRange(p, |g|)
    ensures Backtrack(g, p, true).solved
    decreases |g| - p.row, |g| - p.column, 1, 0, 0
  {
    var n := |g|;
    if !HasNext(CursorAt(p.row, p.column, n)) {
      if At(g, p) == 0 {
        SolutionValueAbsent(g, s, p);
        FillLastComplete(g, p, 1, s[p.row][p.column]);
      }
    } else if At(g, p) != 0 {
      BacktrackComplete(g, s, After(p, n));
    } else {
      PutSame(g, p);
      SolutionValueFits(g, s, p.row, p.column);
      TryComplete(g, s, p, g, 1);
    }
  }

  /** The candidate loop at blank p of g, run on h (g with an earlier
      candidate, or 0, still at p), succeeds while the solution's value at p
      is still ahead. */
  lemma {:induction false} TryComplete(g: Matrix, s: Matrix, p: Position, h: Matrix, v: int)
    requires IsWellFormed(g) && IsSolution(s) && Refines(g, s) && InRange(p, |g|)
    requires HasNext(CursorAt(p.row, p.column, |g|)) && At(g, p) == 0
    requires IsSquare(h) && |h| == |g| && h == Put(g, p, At(h, p)) && 0 <= At(h, p) < v
    requires 1 <= v <= s[p.row][p.column]
    ensures TryCandidates(h, p, v, true).solved
    decreases |g| - p.row, |g| - p.column, 0, |g| + 1 - v, 1
  {
    SolutionValueAbsent(g, s, p);
    OwnCellIgnored(g, p, At(h, p), v);
    if IsPresentForSlot(h, p, v) {
      assert v != s[p.row][p.column];
      TryComplete(g, s, p, h, v + 1);
    } else {
      PlaceComplete(g, s, p, h, v);
    }
  }

  /** The step of `TryComplete` where v is written: either the search below
      succeeds, or v is not the solution's value and a later one is. */
  lemma {:induction false} PlaceComplete(g: Matrix, s: Matrix, p: Position, h: Matrix, v: int)
    requires IsWellFormed(g) && IsSolution(s) && Refines(g, s) && InRange(p, |g|)
    requires HasNext(CursorAt(p.row, p.column, |g|)) && At(g, p) == 0
    requires IsSquare(h) && |h| == |g| && h == Put(g, p, At(h, p)) && 0 <= At(h, p) < v
    requires 1 <= v <= s[p.row][p.column] && !IsPresentForSlot(h, p, v)
    ensures Place(h, p, v, true).solved
    decreases |g| - p.row, |g| - p.column, 0, |g| + 1 - v, 0
  {
    var n := |g|;
    var w := s[p.row][p.column];
    var g1 := Put(g, p, v);
    PutTwice(g, p, At(h, p), v);
    assert Put(h, p, v) == g1;
    var o := Backtrack(g1, After(p, n), true);
    if !o.solved {
      if v == w {
        assert Refines(g1, s) by {
          forall i, j | InBounds(g1, i, j) && g1[i][j] != 0
            ensures s[i][j] == g1[i][j]
          {
            PutAt(g, p, v, Position(i, j));
          }
        }
        BacktrackComplete(g1, s, After(p, n));
      }
      assert o.grid == g1;
      PutAt(g, p, v, p);
      TryComplete(g, s, p, g1, v + 1);
    }
  }

  /** The corrected search succeeds exactly when the board has a solution
      that keeps its givens (compare `OtherBackTrack.SolvedIffSolvable`). */
  lemma SolveFixedIffSolvable(g: Matrix)
    requires Sound(g)
    ensures SolveFixed(g).solved <==> exists s :: IsSolution(s) && Refines(g, s)
  {
    if SolveFixed(g).solved {
      SolveFixedIsSolution(g);
      assert IsSolution(SolveFixed(g).grid) && Refines(g, SolveFixed(g).grid);
    }
    if exists s :: IsSolution(s) && Refines(g, s) {
      var s :| IsSolution(s) && Refines(g, s);
      if |g| > 0 {
        BacktrackComplete(g, s, Origin());
      }
    }
  }
}

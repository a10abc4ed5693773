/** The backtracker of the first iteration of the program (`Algorithm.BackTrack`
    in Main.cs). Unlike the current one it walks until the cursor leaves the
    board, so the bottom-right cell is searched like every other; it stops as
    soon as the fill percentage reaches the target; and a value that led
    nowhere is wiped at once, so a failed search hands the board back exactly
    as it got it. */
module LegacyBackTrack {
  import opened Options
  import opened Board
  import opened Positions
  import Legacy
  import BackTrack

  // -------------------------------------------------------------- walk

  /** Where `Next()` takes the cursor from the bottom-right cell: row N,
      column 0, the first position out of bounds. */
  function End(n: int): Position
  {
    Position(n, 0)
  }

  /** The positions the search is ever called at: the cells, then the end. */
  predicate OnWalk(p: Position, n: int)
  {
    InRange(p, n) || p == End(n)
  }

  /** The cells before the next position are the cells before p and p itself,
      the bottom-right cell included. */
  lemma PrecedesNext(p: Position, q: Position, n: int)
    requires InRange(p, n) && InRange(q, n)
    ensures OnWalk(After(p, n), n)
    ensures Precedes(q, After(p, n)) <==> Precedes(q, p) || q == p
  {
    LastIsLast(q, n);
    if p != Last(n) {
      LastIsLast(p, n);
      PrecedesAfter(p, q, n);
    }
  }

  // ------------------------------------------------------------ search

  /** `Backtrack(grid, row, column, fillPercentage)`: success, or failure
      (null) with the board exactly as it was given. */
  function Backtrack(g: Matrix, p: Position, target: int): (o: Outcome)
    requires IsWellFormed(g) && OnWalk(p, |g|)
    ensures IsWellFormed(o.grid) && |o.grid| == |g|
    ensures !o.solved ==> o.grid == g
    decreases |g| - p.row, |g| - p.column, 1, 0, 0
  {
    var n := |g|;
    if Legacy.IsOutOfBounds(CursorAt(p.row, p.column, n)) then Outcome(true, g)
    else if Legacy.FillPercentage(g) >= target then Outcome(true, g)
    else if At(g, p) != 0 then Backtrack(g, After(p, n), target)
    else TryCandidates(g, p, 1, target)
  }

  /** The `for (i = v; i <= N; i++)` loop at blank cell p: each value the
      scans accept is written and the rest of the board searched. */
  function TryCandidates(g: Matrix, p: Position, v: int, target: int): (o: Outcome)
    requires IsWellFormed(g) && InRange(p, |g|) && At(g, p) == 0 && 1 <= v
    ensures IsWellFormed(o.grid) && |o.grid| == |g|
    ensures !o.solved ==> o.grid == g
    decreases |g| - p.row, |g| - p.column, 0, |g| + 1 - v, 1
  {
    if v > |g| then Outcome(false, g)
    else if BackTrack.IsPresentForSlot(g, p, v) then TryCandidates(g, p, v + 1, target)
    else Place(g, p, v, target)
  }

  /** One accepted value: write it and search on; on failure the cell is
      set back to 0 before the next value. */
  function Place(g: Matrix, p: Position, v: int, target: int): (o: Outcome)
    requires IsWellFormed(g) && InRange(p, |g|) && At(g, p) == 0
    requires 1 <= v <= |g| && !BackTrack.IsPresentForSlot(g, p, v)
    ensures IsWellFormed(o.grid) && |o.grid| == |g|
    ensures !o.solved ==> o.grid == g
    decreases |g| - p.row, |g| - p.column, 0, |g| + 1 - v, 0
  {
    PrecedesNext(p, p, |g|);
    var o := Backtrack(Put(g, p, v), After(p, |g|), target);
    if o.solved then o
    else
      PutTwice(g, p, v, 0);
      PutSame(g, p);
      TryCandidates(Put(o.grid, p, 0), p, v + 1, target)
  }

  /** `Solve(grid, fillPercentage)`: the search from the origin; a failed
      search hands back null, here None. */
  function Solve(g: Matrix, target: int): (r: Option<Matrix>)
    requires IsWellFormed(g)
    ensures r.Some? ==> IsWellFormed(r.value) && |r.value| == |g|
  {
    var o := Backtrack(g, Origin(), target);
    if o.solved then Some(o.grid) else None
  }

  // ------------------------------------------------------------- frame

  /** A search from p keeps every given cell and every cell before p; on
      success the target is reached or every cell from p on is filled. */
  lemma {:induction false} BacktrackFrame(g: Matrix, p: Position, target: int)
    requires IsWellFormed(g) && OnWalk(p, |g|)
    ensures var o := Backtrack(g, p, target);
            BackTrack.Keeps(g, o.grid, p, true) &&
            (o.solved ==> Legacy.FillPercentage(o.grid) >= target || BackTrack.FilledOnward(o.grid, p, true))
    decreases |g| - p.row, |g| - p.column, 1, 0, 0
  {
    var n := |g|;
    if InRange(p, n) && Legacy.FillPercentage(g) < target {
      if At(g, p) != 0 {
        var next := After(p, n);
        var o := Backtrack(g, next, target);
        forall q | InRange(q, n)
          ensures Precedes(q, next) <==> Precedes(q, p) || q == p
        {
          PrecedesNext(p, q, n);
        }
        BacktrackFrame(g, next, target);
        assert BackTrack.Pinned(g, p, next, true);
      } else {
        TryFrame(g, p, 1, target);
      }
    }
  }

  /** Trying values from v at blank p keeps what the search must keep and, on
      success, reaches the target or fills p and every later cell. */
  lemma {:induction false} TryFrame(g: Matrix, p: Position, v: int, target: int)
    requires IsWellFormed(g) && InRange(p, |g|) && At(g, p) == 0 && 1 <= v
    ensures var o := TryCandidates(g, p, v, target);
            BackTrack.Keeps(g, o.grid, p, true) &&
            (o.solved ==> Legacy.FillPercentage(o.grid) >= target || BackTrack.FilledOnward(o.grid, p, true))
    decreases |g| - p.row, |g| - p.column, 0, |g| + 1 - v, 1
  {
    if v <= |g| {
      if BackTrack.IsPresentForSlot(g, p, v) {
        TryFrame(g, p, v + 1, target);
      } else {
        PlaceFrame(g, p, v, target);
      }
    }
  }

  lemma {:induction false} PlaceFrame(g: Matrix, p: Position, v: int, target: int)
    requires IsWellFormed(g) && InRange(p, |g|) && At(g, p) == 0
    requires 1 <= v <= |g| && !BackTrack.IsPresentForSlot(g, p, v)
    ensures var o := Place(g, p, v, target);
            BackTrack.Keeps(g, o.grid, p, true) &&
            (o.solved ==> Legacy.FillPercentage(o.grid) >= target || BackTrack.FilledOnward(o.grid, p, true))
    decreases |g| - p.row, |g| - p.column, 0, |g| + 1 - v, 0
  {
    var n := |g|;
    PrecedesNext(p, p, n);
    var g1 := Put(g, p, v);
    var o := Backtrack(g1, After(p, n), target);
    if o.solved {
      BacktrackFrame(g1, After(p, n), target);
      StepFrame(g, p, v, target, o.grid);
    } else {
      PutTwice(g, p, v, 0);
      PutSame(g, p);
      assert Put(o.grid, p, 0) == g;
      TryFrame(g, p, v + 1, target);
    }
  }

  /** One successful step: the search after p, started with v at p, kept
      what it had to, so p still holds v and the earlier cells are intact. */
  lemma StepFrame(g: Matrix, p: Position, v: int, target: int, h: Matrix)
    requires IsWellFormed(g) && InRange(p, |g|) && At(g, p) == 0 && 1 <= v <= |g|
    requires IsSquare(h) && |h| == |g| && OnWalk(After(p, |g|), |g|)
    requires BackTrack.Keeps(Put(g, p, v), h, After(p, |g|), true)
    requires Legacy.FillPercentage(h) >= target || BackTrack.FilledOnward(h, After(p, |g|), true)
    ensures BackTrack.Keeps(g, h, p, true)
    ensures Legacy.FillPercentage(h) >= target || BackTrack.FilledOnward(h, p, true)
  {
    var n := |g|;
    var g1 := Put(g, p, v);
    var next := After(p, n);
    PrecedesNext(p, p, n);
    PutAt(g, p, v, p);
    assert BackTrack.Pinned(g1, p, next, true);
    forall q | InRange(q, n) && BackTrack.Pinned(g, q, p, true)
      ensures At(h, q) == At(g, q)
    {
      PrecedesNext(p, q, n);
      PutAt(g, p, v, q);
      assert BackTrack.Pinned(g1, q, next, true);
    }
    if Legacy.FillPercentage(h) < target {
      forall q | InRange(q, n) && !Precedes(q, p)
        ensures At(h, q) != 0
      {
        PrecedesNext(p, q, n);
      }
    }
  }

  // ---------------------------------------------------------- validity

  /** Every write of the search keeps a sound board sound. */
  lemma {:induction false} BacktrackSound(g: Matrix, p: Position, target: int)
    requires Sound(g) && OnWalk(p, |g|)
    ensures Sound(Backtrack(g, p, target).grid)
    decreases |g| - p.row, |g| - p.column, 1, 0
  {
    var n := |g|;
    if InRange(p, n) && Legacy.FillPercentage(g) < target {
      if At(g, p) != 0 {
        PrecedesNext(p, p, n);
        BacktrackSound(g, After(p, n), target);
      } else {
        TrySound(g, p, 1, target);
      }
    }
  }

  lemma {:induction false} TrySound(g: Matrix, p: Position, v: int, target: int)
    requires Sound(g) && InRange(p, |g|) && At(g, p) == 0 && 1 <= v
    ensures Sound(TryCandidates(g, p, v, target).grid)
    decreases |g| - p.row, |g| - p.column, 0, |g| + 1 - v
  {
    if v <= |g| {
      if BackTrack.IsPresentForSlot(g, p, v) {
        TrySound(g, p, v + 1, target);
      } else {
        var n := |g|;
        PrecedesNext(p, p, n);
        var o := Backtrack(Put(g, p, v), After(p, n), target);
        if o.solved {
          BackTrack.PlaceKeepsSound(g, p, v);
          BacktrackSound(Put(g, p, v), After(p, n), target);
        } else {
          PutTwice(g, p, v, 0);
          PutSame(g, p);
          TrySound(g, p, v + 1, target);
        }
      }
    }
  }

  /** A board with no blank is walked to the end and handed back as it is. */
  lemma {:induction false} FullBoardKept(g: Matrix, p: Position, target: int)
    requires IsWellFormed(g) && OnWalk(p, |g|) && NoZeros(g)
    ensures Backtrack(g, p, target) == Outcome(true, g)
    decreases |g| - p.row, |g| - p.column
  {
    var n := |g|;
    if InRange(p, n) && Legacy.FillPercentage(g) < target {
      assert At(g, p) != 0;
      PrecedesNext(p, p, n);
      FullBoardKept(g, After(p, n), target);
    }
  }

  // ------------------------------------------------------------ result

  /** What `Solve` hands back keeps every given and is sound when the givens
      are; it has reached the target or is full, the bottom-right cell
      included, so from sound givens and a target above 100 it is a
      solution. A board already at the target, or full, comes back as it is. */
  lemma SolveFacts(g: Matrix, target: int)
    requires IsWellFormed(g)
    ensures Solve(g, target).Some? ==>
              var r := Solve(g, target).value;
              Refines(g, r) && (Legacy.FillPercentage(r) >= target || NoZeros(r)) &&
              (Sound(g) ==> Sound(r)) &&
              (Sound(g) && target > 100 ==> IsSolution(r))
    ensures Legacy.FillPercentage(g) >= target || NoZeros(g) ==> Solve(g, target) == Some(g)
  {
    var n := |g|;
    var o := Backtrack(g, Origin(), target);
    if NoZeros(g) {
      FullBoardKept(g, Origin(), target);
    }
    BacktrackFrame(g, Origin(), target);
    if Sound(g) {
      BacktrackSound(g, Origin(), target);
    }
    if o.solved {
      forall i, j | InBounds(g, i, j) && g[i][j] != 0
        ensures o.grid[i][j] == g[i][j]
      {
        assert BackTrack.Pinned(g, Position(i, j), Origin(), true);
      }
      if Legacy.FillPercentage(o.grid) < target {
        forall i, j | InBounds(o.grid, i, j)
          ensures o.grid[i][j] != 0
        {
          assert At(o.grid, Position(i, j)) != 0;
        }
      }
    }
  }
}

/** The second backtracking solver, doku/solvers/algorithms/OtherBackTrack.cs:
    find the first blank in row-major order, try 1..N there with
    `IsValidPlacement`, recurse, and clear the cell after every failed try. */
module OtherBackTrack {
  import opened Options
  import opened Board
  import opened Positions
  import Solver

  /** The first blank of row i from column j on. */
  function ZeroInRow(g: Matrix, i: int, j: int): (r: Option<int>)
    requires IsSquare(g) && 0 <= i < |g| && 0 <= j <= |g|
    ensures r.Some? ==> j <= r.value < |g| && g[i][r.value] == 0
    decreases |g| - j
  {
    if j == |g| then None
    else if g[i][j] == 0 then Some(j)
    else ZeroInRow(g, i, j + 1)
  }

  /** Every cell the row scan passes over is filled. */
  lemma {:induction false} ZeroInRowFirst(g: Matrix, i: int, j: int)
    requires IsSquare(g) && 0 <= i < |g| && 0 <= j <= |g|
    ensures var r := ZeroInRow(g, i, j);
            forall t :: j <= t < (if r.Some? then r.value else |g|) ==> g[i][t] != 0
    decreases |g| - j
  {
    if j < |g| && g[i][j] != 0 {
      ZeroInRowFirst(g, i, j + 1);
    }
  }

  /** The first blank in row-major order from row i on. */
  function ZeroFrom(g: Matrix, i: int): (r: Option<Position>)
    requires IsSquare(g) && 0 <= i <= |g|
    ensures r.Some? ==> i <= r.value.row && InRange(r.value, |g|) && g[r.value.row][r.value.column] == 0
    decreases |g| - i
  {
    if i == |g| then None
    else match ZeroInRow(g, i, 0)
      case Some(j) => Some(Position(i, j))
      case None => ZeroFrom(g, i + 1)
  }

  /** Every cell the scan from row i passes over is filled. */
  lemma {:induction false} ZeroFromFirst(g: Matrix, i: int)
    requires IsSquare(g) && 0 <= i <= |g|
    ensures var r := ZeroFrom(g, i);
            forall x :: InRange(x, |g|) && i <= x.row && (r.None? || Precedes(x, r.value)) ==> At(g, x) != 0
    decreases |g| - i
  {
    if i < |g| {
      ZeroInRowFirst(g, i, 0);
      if ZeroInRow(g, i, 0).None? {
        ZeroFromFirst(g, i + 1);
      }
    }
  }

  /** The nested loops of `SmartSolve` looking for `grid[i, j] == 0`: a
      blank, and none exactly when the board is full (`FirstZeroIsFirst`:
      every cell before it is filled). */
  function FirstZero(g: Matrix): (r: Option<Position>)
    requires IsSquare(g)
    ensures r.None? <==> NoZeros(g)
    ensures r.Some? ==> InRange(r.value, |g|) && g[r.value.row][r.value.column] == 0
  {
    var r := ZeroFrom(g, 0);
    ZeroFromFirst(g, 0);
    assert r.None? ==> NoZeros(g) by {
      if r.None? {
        forall i, j | InBounds(g, i, j)
          ensures g[i][j] != 0
        {
          assert At(g, Position(i, j)) != 0;
        }
      }
    }
    assert r.Some? ==> !NoZeros(g) by {
      if r.Some? {
        assert g[r.value.row][r.value.column] == 0;
      }
    }
    r
  }

  /** The blank `FirstZero` finds is the first in row-major order. */
  lemma FirstZeroIsFirst(g: Matrix)
    requires IsSquare(g)
    ensures var r := FirstZero(g);
            r.Some? ==> forall x :: InRange(x, |g|) && Precedes(x, r.value) ==> g[x.row][x.column] != 0
  {
    ZeroFromFirst(g, 0);
    var r := FirstZero(g);
    if r.Some? {
      forall x | InRange(x, |g|) && Precedes(x, r.value)
        ensures g[x.row][x.column] != 0
      {
        assert At(g, x) != 0;
      }
    }
  }

  /** `SmartSolve(grid)`: false with the board exactly as it came in, or
      true with a full board that keeps every given cell (`SmartSolveFills`). */
  function SmartSolve(g: Matrix): (o: Outcome)
    requires IsWellFormed(g)
    ensures IsWellFormed(o.grid) && |o.grid| == |g|
    ensures !o.solved ==> o.grid == g
    decreases ZeroCount(g), 1, 0
  {
    match FirstZero(g)
    case None => Outcome(true, g)
    case Some(q) => TryValues(g, q, 1)
  }

  /** The `for (t = 1; t <= N; t++)` loop at the first blank q. */
  function TryValues(g: Matrix, q: Position, t: int): (o: Outcome)
    requires IsWellFormed(g) && InRange(q, |g|) && g[q.row][q.column] == 0 && 1 <= t
    ensures IsWellFormed(o.grid) && |o.grid| == |g|
    ensures !o.solved ==> o.grid == g
    decreases ZeroCount(g), 0, |g| + 1 - t, 1
  {
    if t > |g| then Outcome(false, g)
    else if Solver.IsValidPlacement(g, t, q.row, q.column) then Place(g, q, t)
    else TryValues(g, q, t + 1)
  }

  /** One accepted value t at q: write it and solve the rest; on failure the
      cell is cleared and the loop goes on with t + 1. */
  function Place(g: Matrix, q: Position, t: int): (o: Outcome)
    requires IsWellFormed(g) && InRange(q, |g|) && g[q.row][q.column] == 0 && 1 <= t <= |g|
    ensures IsWellFormed(o.grid) && |o.grid| == |g|
    ensures !o.solved ==> o.grid == g
    decreases ZeroCount(g), 0, |g| + 1 - t, 0
  {
    var g1 := Put(g, q, t);
    PutFillsOne(g, q, t);
    var o := SmartSolve(g1);
    if o.solved then o
    else
      PutTwice(g, q, t, 0);
      PutSame(g, q);
      TryValues(Put(o.grid, q, 0), q, t + 1)
  }

  /** `Solve(grid, maxIterations)`: the search runs in place on the grid's
      own array, which is returned whatever the outcome. */
  function Solve(g: Matrix): (r: Matrix)
    requires IsWellFormed(g)
    ensures IsWellFormed(r) && |r| == |g| && Refines(g, r)
  {
    SmartSolveFills(g);
    SmartSolve(g).grid
  }

  // ------------------------------------------------------- filling only

  /** A reported success is a full board that keeps every non-zero cell. */
  lemma {:induction false} SmartSolveFills(g: Matrix)
    requires IsWellFormed(g)
    ensures var o := SmartSolve(g);
            o.solved ==> NoZeros(o.grid) && Refines(g, o.grid)
    decreases ZeroCount(g), |g| + 2, 0
  {
    match FirstZero(g)
    case None =>
    case Some(q) => TryValuesFills(g, q, 1);
  }

  lemma {:induction false} TryValuesFills(g: Matrix, q: Position, t: int)
    requires IsWellFormed(g) && InRange(q, |g|) && g[q.row][q.column] == 0 && 1 <= t
    ensures var o := TryValues(g, q, t);
            o.solved ==> NoZeros(o.grid) && Refines(g, o.grid)
    decreases ZeroCount(g), |g| + 1 - t, 1
  {
    if t <= |g| {
      if Solver.IsValidPlacement(g, t, q.row, q.column) {
        PlaceFills(g, q, t);
      } else {
        TryValuesFills(g, q, t + 1);
      }
    }
  }

  lemma {:induction false} PlaceFills(g: Matrix, q: Position, t: int)
    requires IsWellFormed(g) && InRange(q, |g|) && g[q.row][q.column] == 0 && 1 <= t <= |g|
    ensures var o := Place(g, q, t);
            o.solved ==> NoZeros(o.grid) && Refines(g, o.grid)
    decreases ZeroCount(g), |g| + 1 - t, 0
  {
    var g1 := Put(g, q, t);
    PutFillsOne(g, q, t);
    var o := SmartSolve(g1);
    if o.solved {
      SmartSolveFills(g1);
      assert Place(g, q, t) == o;
      RefinesTransitive(g, g1, o.grid);
    } else {
      PutTwice(g, q, t, 0);
      PutSame(g, q);
      assert Place(g, q, t) == TryValues(g, q, t + 1);
      TryValuesFills(g, q, t + 1);
    }
  }

  // ------------------------------------------------------------ soundness

  lemma PlaceKeepsSound(g: Matrix, q: Position, t: int)
    requires Sound(g) && InRange(q, |g|) && 1 <= t <= |g| && Solver.IsValidPlacement(g, t, q.row, q.column)
    ensures Sound(Put(g, q, t))
  {
    SoundAfterPlace(g, q.row, q.column, t);
  }

  lemma {:induction false} SmartSolveSound(g: Matrix)
    requires Sound(g)
    ensures Sound(SmartSolve(g).grid)
    decreases ZeroCount(g), |g| + 2, 0
  {
    match FirstZero(g)
    case None =>
    case Some(q) => TryValuesSound(g, q, 1);
  }

  lemma {:induction false} TryValuesSound(g: Matrix, q: Position, t: int)
    requires Sound(g) && InRange(q, |g|) && g[q.row][q.column] == 0 && 1 <= t
    ensures Sound(TryValues(g, q, t).grid)
    decreases ZeroCount(g), |g| + 1 - t, 1
  {
    var r := TryValues(g, q, t);
    if t > |g| {
      assert r.grid == g;
    } else if Solver.IsValidPlacement(g, t, q.row, q.column) {
      assert r == Place(g, q, t);
      PlaceKeepsSound(g, q, t);
      PlaceSound(g, q, t);
    } else {
      assert r == TryValues(g, q, t + 1);
      TryValuesSound(g, q, t + 1);
    }
  }

  /** The step of `TryValuesSound` where t is placed and the search recurses. */
  lemma {:induction false} PlaceSound(g: Matrix, q: Position, t: int)
    requires Sound(g) && InRange(q, |g|) && g[q.row][q.column] == 0 && 1 <= t <= |g|
    requires Sound(Put(g, q, t))
    ensures Sound(Place(g, q, t).grid)
    decreases ZeroCount(g), |g| + 1 - t, 0
  {
    var r := Place(g, q, t);
    var g1 := Put(g, q, t);
    PutFillsOne(g, q, t);
    SmartSolveSound(g1);
    var o := SmartSolve(g1);
    if o.solved {
      assert r == o;
    } else {
      PutTwice(g, q, t, 0);
      PutSame(g, q);
      assert r == TryValues(g, q, t + 1);
      TryValuesSound(g, q, t + 1);
    }
  }

  /** On a sound board a reported success is a solution keeping every given. */
  lemma SolveIsSolution(g: Matrix)
    requires Sound(g) && SmartSolve(g).solved
    ensures IsSolution(Solve(g)) && Refines(g, Solve(g))
  {
    SmartSolveSound(g);
    SmartSolveFills(g);
  }

  // --------------------------------------------------------- completeness

  /** The search misses nothing: whenever some solution keeps every given
      cell of the board, `SmartSolve` reports success. */
  lemma {:induction false} SmartSolveComplete(g: Matrix, s: Matrix)
    requires IsWellFormed(g) && IsSolution(s) && Refines(g, s)
    ensures SmartSolve(g).solved
    decreases ZeroCount(g), |g| + 2, 0
  {
    match FirstZero(g)
    case None =>
    case Some(q) =>
      SolutionValueFits(g, s, q.row, q.column);
      TryValuesComplete(g, s, q, 1);
  }

  /** At the first blank q, trying values from t on succeeds when the
      solution's value at q is at least t. */
  lemma {:induction false} TryValuesComplete(g: Matrix, s: Matrix, q: Position, t: int)
    requires IsWellFormed(g) && IsSolution(s) && Refines(g, s)
    requires InRange(q, |g|) && g[q.row][q.column] == 0 && 1 <= t <= s[q.row][q.column]
    ensures TryValues(g, q, t).solved
    decreases ZeroCount(g), |g| + 1 - t, 1
  {
    SolutionValueFits(g, s, q.row, q.column);
    if Solver.IsValidPlacement(g, t, q.row, q.column) {
      PlaceComplete(g, s, q, t);
      assert TryValues(g, q, t) == Place(g, q, t);
    } else {
      assert t != s[q.row][q.column];
      TryValuesComplete(g, s, q, t + 1);
      assert TryValues(g, q, t) == TryValues(g, q, t + 1);
    }
  }

  /** The step of `TryValuesComplete` where t is placed: either the search
      below succeeds, or t is not the solution's value and a later one is. */
  lemma {:induction false} PlaceComplete(g: Matrix, s: Matrix, q: Position, t: int)
    requires IsWellFormed(g) && IsSolution(s) && Refines(g, s)
    requires InRange(q, |g|) && g[q.row][q.column] == 0 && 1 <= t <= s[q.row][q.column]
    requires Solver.IsValidPlacement(g, t, q.row, q.column)
    ensures Place(g, q, t).solved
    decreases ZeroCount(g), |g| + 1 - t, 0
  {
    var w := s[q.row][q.column];
    SolutionValueFits(g, s, q.row, q.column);
    var g1 := Put(g, q, t);
    PutFillsOne(g, q, t);
    var o := SmartSolve(g1);
    if o.solved {
      assert Place(g, q, t) == o;
    } else {
      if t == w {
        assert Refines(g1, s);
        SmartSolveComplete(g1, s);
      }
      PutTwice(g, q, t, 0);
      PutSame(g, q);
      TryValuesComplete(g, s, q, t + 1);
      assert Place(g, q, t) == TryValues(g, q, t + 1);
    }
  }

  /** Success and the existence of a solution keeping the givens coincide on
      a sound board. */
  lemma SolvedIffSolvable(g: Matrix)
    requires Sound(g)
    ensures SmartSolve(g).solved <==> exists s :: IsSolution(s) && Refines(g, s)
  {
    if SmartSolve(g).solved {
      SolveIsSolution(g);
      assert IsSolution(Solve(g)) && Refines(g, Solve(g));
    }
    if exists s :: IsSolution(s) && Refines(g, s) {
      var s :| IsSolution(s) && Refines(g, s);
      SmartSolveComplete(g, s);
    }
  }
}

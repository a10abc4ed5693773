/** The sweep solver of doku/solvers/algorithms/BruteForce.cs: walk the board
    in row-major order with two `for` loops, give every blank cell that
    exactly one value may take that value, and repeat the walk until
    `IsSolved` accepts the board. The board is written in place, so each
    visit sees the writes of the visits before it. */
module BruteForce {
  import opened Options
  import opened Loops
  import opened Board
  import opened Positions
  import opened Doku
  import opened Solver
  import SlotPerSlot

  // ------------------------------------------------------------- one cell

  /** The values r..N that `IsValidPlacement` accepts at (i, j), in the
      order the `for (short r = 1; r <= N; r++)` loop adds them. */
  function ValidFrom(g: Matrix, i: int, j: int, r: int): (vs: seq<int>)
    requires IsWellFormed(g) && InBounds(g, i, j) && 1 <= r
    ensures forall t :: 0 <= t < |vs| ==> r <= vs[t]
    decreases |g| + 1 - r
  {
    if r > |g| then []
    else if IsValidPlacement(g, r, i, j) then [r] + ValidFrom(g, i, j, r + 1)
    else ValidFrom(g, i, j, r + 1)
  }

  /** The list is ascending and holds exactly the accepted values from r on. */
  lemma {:induction false} ValidFromMembers(g: Matrix, i: int, j: int, r: int)
    requires IsWellFormed(g) && InBounds(g, i, j) && 1 <= r
    ensures Ascending(ValidFrom(g, i, j, r))
    ensures forall v :: v in ValidFrom(g, i, j, r) <==> r <= v <= |g| && IsValidPlacement(g, v, i, j)
    decreases |g| + 1 - r
  {
    if r <= |g| {
      ValidFromMembers(g, i, j, r + 1);
    }
  }

  /** The list the scans build is the cell's candidate list: the two ways
      the program collects the values a cell may take agree. */
  lemma ValidListIsCandidates(g: Matrix, i: int, j: int)
    requires IsWellFormed(g) && InBounds(g, i, j)
    ensures ValidFrom(g, i, j, 1) == GetSlotPossibilities(g, i, j)
  {
    var a := ValidFrom(g, i, j, 1);
    var b := GetSlotPossibilities(g, i, j);
    ValidFromMembers(g, i, j, 1);
    forall v
      ensures v in a <==> v in b
    {
      if 1 <= v <= |g| {
        ValidIffPossible(g, v, i, j);
      } else {
        OutOfRangeNeverPossible(g, v, i, j);
      }
    }
    AscendingUnique(a, b);
  }

  /** The body of the two `for` loops at cell (i, j): a filled cell is
      skipped; a blank one with a single valid value gets it. */
  function Visit(g: Matrix, i: int, j: int): (g': Matrix)
    requires IsWellFormed(g) && InBounds(g, i, j)
    ensures IsWellFormed(g') && |g'| == |g|
  {
    if g[i][j] != 0 then g
    else
      var possibilities := ValidFrom(g, i, j, 1);
      if |possibilities| == 1 then
        SetCellKeepsWellFormed(g, i, j, possibilities[0]);
        SetCell(g, i, j, possibilities[0])
      else g
  }

  /** A visit does to the cell what the forced-singles pass does. */
  lemma VisitIsForced(g: Matrix, p: Position)
    requires IsWellFormed(g) && InRange(p, |g|)
    ensures Visit(g, p.row, p.column) == SlotPerSlot.Forced(g, p)
  {
    ValidListIsCandidates(g, p.row, p.column);
  }

  // ---------------------------------------------------------------- a pass

  /** The two `for` loops from cell (i, j) on. */
  function CellsFrom(g: Matrix, i: int, j: int): (r: Matrix)
    requires IsWellFormed(g) && 0 <= i <= |g| && 0 <= j <= |g|
    ensures IsWellFormed(r) && |r| == |g|
    decreases |g| - i, |g| - j
  {
    if i == |g| then g
    else if j == |g| then CellsFrom(g, i + 1, 0)
    else CellsFrom(Visit(g, i, j), i, j + 1)
  }

  /** One run of the `do` body over the whole board. */
  function Pass(g: Matrix): (r: Matrix)
    requires IsWellFormed(g)
    ensures IsWellFormed(r) && |r| == |g|
  {
    CellsFrom(g, 0, 0)
  }

  /** From any cell on, the two `for` loops do what the forced-singles
      sweep does with the bottom-right cell included: this pass has no
      last-cell gap. */
  lemma {:induction false} CellsAreSweep(g: Matrix, p: Position)
    requires IsWellFormed(g) && InRange(p, |g|)
    ensures CellsFrom(g, p.row, p.column) == SlotPerSlot.SweepFrom(g, p, true)
    decreases |g| - p.row, |g| - p.column
  {
    var n := |g|;
    VisitIsForced(g, p);
    var g1 := Visit(g, p.row, p.column);
    assert CellsFrom(g, p.row, p.column) == CellsFrom(g1, p.row, p.column + 1);
    LastIsLast(p, n);
    if HasNext(CursorAt(p.row, p.column, n)) {
      CellsAreSweep(g1, After(p, n));
      if p.column + 1 == n {
        assert CellsFrom(g1, p.row, n) == CellsFrom(g1, p.row + 1, 0);
      }
    } else {
      assert CellsFrom(g1, n - 1, n) == CellsFrom(g1, n, 0);
    }
  }

  /** The `for (short r = 1; r <= N; r++)` loop, value by value: it builds
      the cell's candidate list. */
  method ScanCandidates(tab: Matrix, i: int, j: int) returns (possibilities: seq<int>)
    requires IsWellFormed(tab) && InBounds(tab, i, j)
    ensures possibilities == GetSlotPossibilities(tab, i, j)
  {
    possibilities := [];
    for r := 1 to |tab| + 1
      invariant possibilities + ValidFrom(tab, i, j, r) == ValidFrom(tab, i, j, 1)
    {
      if IsValidPlacement(tab, r, i, j) {
        assert ValidFrom(tab, i, j, r) == [r] + ValidFrom(tab, i, j, r + 1);
        assert possibilities + ([r] + ValidFrom(tab, i, j, r + 1)) == (possibilities + [r]) + ValidFrom(tab, i, j, r + 1);
        possibilities := possibilities + [r];
      }
    }
    ValidListIsCandidates(tab, i, j);
  }

  /** One visit as the program makes it, writing the board in place; it is
      what the forced-singles pass does to that cell. */
  method VisitCell(tab: Matrix, i: int, j: int) returns (t: Matrix)
    requires IsWellFormed(tab) && InBounds(tab, i, j)
    ensures t == SlotPerSlot.Forced(tab, Position(i, j))
  {
    t := tab;
    if tab[i][j] == 0 {
      var possibilities := ScanCandidates(tab, i, j);
      if |possibilities| == 1 {
        t := SetCell(tab, i, j, possibilities[0]);
      }
    }
  }

  /** The `do` body as the program runs it: the forced-singles sweep over
      every cell, the bottom-right one included. */
  method PassInPlace(g: Matrix) returns (tab: Matrix)
    requires IsWellFormed(g)
    ensures |g| > 0 ==> tab == SlotPerSlot.SweepFrom(g, Origin(), true)
    ensures |g| == 0 ==> tab == g
  {
    var n := |g|;
    tab := g;
    for i := 0 to n
      invariant IsWellFormed(tab) && |tab| == n
      invariant CellsFrom(tab, i, 0) == Pass(g)
    {
      for j := 0 to n
        invariant IsWellFormed(tab) && |tab| == n
        invariant CellsFrom(tab, i, j) == Pass(g)
      {
        VisitIsForced(tab, Position(i, j));
        var t := VisitCell(tab, i, j);
        assert CellsFrom(tab, i, j) == CellsFrom(t, i, j + 1);
        tab := t;
      }
      assert CellsFrom(tab, i, n) == CellsFrom(tab, i + 1, 0);
    }
    if n > 0 {
      CellsAreSweep(g, Origin());
    }
  }

  /** A pass keeps every filled cell, keeps a sound board sound, and never
      strays from a solution of the givens. */
  lemma PassFacts(g: Matrix, s: Matrix)
    requires IsWellFormed(g)
    ensures Refines(g, Pass(g))
    ensures Sound(g) ==> Sound(Pass(g))
    ensures IsSolution(s) && Refines(g, s) ==> Refines(Pass(g), s)
  {
    if |g| > 0 {
      CellsAreSweep(g, Origin());
      SlotPerSlot.SweepRefines(g, Origin(), true);
      if Sound(g) {
        SlotPerSlot.SweepSound(g, Origin(), true);
      }
      if IsSolution(s) && Refines(g, s) {
        SlotPerSlot.SweepKeepsSolution(g, Origin(), true, s);
      }
    }
  }

  /** A board none of whose blank cells has a single candidate comes out of
      a pass unchanged. */
  lemma {:induction false} CellsIdle(g: Matrix, i: int, j: int)
    requires IsWellFormed(g) && 0 <= i <= |g| && 0 <= j <= |g|
    requires forall a, c :: InBounds(g, a, c) && g[a][c] == 0 ==> |ValidFrom(g, a, c, 1)| != 1
    ensures CellsFrom(g, i, j) == g
    decreases |g| - i, |g| - j
  {
    if i == |g| {
    } else if j == |g| {
      CellsIdle(g, i + 1, 0);
    } else {
      assert Visit(g, i, j) == g;
      CellsIdle(g, i, j + 1);
    }
  }

  /** The same, with the candidate lists the other solvers read. */
  lemma PassIdle(g: Matrix)
    requires IsWellFormed(g)
    requires forall a, c :: InBounds(g, a, c) && g[a][c] == 0 ==> |GetSlotPossibilities(g, a, c)| != 1
    ensures Pass(g) == g
  {
    forall a, c | InBounds(g, a, c) && g[a][c] == 0
      ensures |ValidFrom(g, a, c, 1)| != 1
    {
      ValidListIsCandidates(g, a, c);
    }
    CellsIdle(g, 0, 0);
  }

  // ------------------------------------------------------------ the loop

  /** The `do` body as a step on any board: a board the scans cannot read
      is left alone (the program never builds one). */
  function Step(h: Matrix): (r: Matrix)
    ensures IsWellFormed(h) ==> IsWellFormed(r) && |r| == |h| && Refines(h, r)
  {
    if IsWellFormed(h) then PassFacts(h, h); Pass(h) else h
  }

  /** The `while (!IsSolved(grid))` test, read as the stop condition. */
  predicate Accepted(h: Matrix)
  {
    IsWellFormed(h) && IsSolved(h)
  }

  /** `do { pass } while (!IsSolved(grid))` with at most `fuel` passes. The
      program's loop has no bound of its own, so None means the loop would
      still be running after `fuel` passes. */
  function Run(g: Matrix, fuel: nat): (r: Option<Matrix>)
    ensures r.Some? ==> IsWellFormed(r.value) && IsSolved(r.value)
    ensures r.None? ==> forall t :: 1 <= t <= fuel ==> !Accepted(Iterate(Step, g, t))
  {
    DoWhile(Step, Accepted, g, fuel)
  }

  /** `Solve(grid, maxIterations)` as written: the budget is never read. */
  function Solve(g: Matrix, maxIterations: int, fuel: nat): (r: Option<Matrix>)
    ensures r.Some? ==> IsWellFormed(r.value) && IsSolved(r.value)
    ensures r.None? ==> forall t :: 1 <= t <= fuel ==> !Accepted(Iterate(Step, g, t))
  {
    Run(g, fuel)
  }

  /** The facts a pass keeps about the boards reached from g. */
  ghost predicate Reached(g: Matrix, h: Matrix)
    requires IsWellFormed(g)
  {
    IsWellFormed(h) && |h| == |g| && Refines(g, h) && (Sound(g) ==> Sound(h))
  }

  lemma StepKeepsReached(g: Matrix, h: Matrix)
    requires IsWellFormed(g) && Reached(g, h)
    ensures Reached(g, Step(h))
  {
    PassFacts(h, h);
    RefinesTransitive(g, h, Pass(h));
  }

  /** What the loop hands back passes `IsSolved`, keeps every given, and is a
      solution whenever the givens were sound. */
  lemma RunFacts(g: Matrix, fuel: nat)
    requires IsWellFormed(g)
    ensures Run(g, fuel).Some? ==>
              var r := Run(g, fuel).value;
              IsWellFormed(r) && |r| == |g| && IsSolved(r) && Refines(g, r) &&
              (Sound(g) ==> IsSolution(r))
  {
    var inv := h => Reached(g, h);
    forall h | inv(h)
      ensures inv(Step(h))
    {
      StepKeepsReached(g, h);
    }
    DoWhileKeeps(Step, Accepted, inv, g, fuel);
    if Run(g, fuel).Some? {
      SolvedIsFilled(Run(g, fuel).value);
    }
  }

  /** Every value the loop writes is forced, so from givens some solution
      refines it can only ever hand back that solution. */
  lemma RunFindsTheSolution(g: Matrix, fuel: nat, s: Matrix)
    requires IsWellFormed(g) && IsSolution(s) && Refines(g, s)
    ensures Run(g, fuel).Some? ==> Run(g, fuel).value == s
  {
    var inv := h => IsWellFormed(h) && Refines(h, s);
    forall h | inv(h)
      ensures inv(Step(h))
    {
      PassFacts(h, s);
    }
    DoWhileKeeps(Step, Accepted, inv, g, fuel);
    if Run(g, fuel).Some? {
      SolvedIsFilled(Run(g, fuel).value);
      FullRefinementIsEqual(Run(g, fuel).value, s);
    }
  }

  /** A full board that keeps every cell of another board of its size is
      that board. */
  lemma FullRefinementIsEqual(g: Matrix, s: Matrix)
    requires IsSquare(g) && NoZeros(g) && Refines(g, s)
    ensures g == s
  {
    forall i | 0 <= i < |g|
      ensures g[i] == s[i]
    {
      forall j | 0 <= j < |g|
        ensures g[i][j] == s[i][j]
      {
        assert g[i][j] != 0;
      }
    }
  }

  /** A board where no blank cell has a single candidate and that `IsSolved`
      rejects is never left: however many passes, the loop keeps going. */
  lemma StuckRunsForever(g: Matrix, fuel: nat)
    requires IsWellFormed(g) && !IsSolved(g)
    requires forall a, c :: InBounds(g, a, c) && g[a][c] == 0 ==> |GetSlotPossibilities(g, a, c)| != 1
    ensures Run(g, fuel) == None
  {
    PassIdle(g);
    DoWhileStuck(Step, Accepted, g, fuel);
  }

  /** The discrepancy: on the empty board of any size N >= 2 every cell has
      all of 1..N as candidates, so no pass writes anything, and `Solve`
      never returns, whatever `maxIterations` says. */
  lemma EmptyBoardNeverFinishes(g: Matrix, maxIterations: int, fuel: nat)
    requires IsWellFormed(g) && AllZero(g) && |g| >= 2
    ensures Solve(g, maxIterations, fuel) == None
  {
    forall a, c | InBounds(g, a, c) && g[a][c] == 0
      ensures |GetSlotPossibilities(g, a, c)| != 1
    {
      EmptyBoardPossibilities(g, a, c);
    }
    assert g[0][0] == 0;
    StuckRunsForever(g, fuel);
  }

  // --------------------------------------------- the budget honoured

  /** The loop with `maxIterations` read as the pass budget, as the
      forced-singles solver reads it: `do { pass; iterations++ } while
      (!IsSolved(grid) && iterations < maxIterations)`. It always ends. */
  function SolveBounded(g: Matrix, maxIterations: int): (r: Matrix)
    ensures !Accepted(r) ==> r == Iterate(Step, g, if maxIterations < 1 then 1 else maxIterations)
  {
    DoWhileBounded(Step, Accepted, g, maxIterations)
  }

  /** The bounded loop keeps every given and keeps a sound board sound, so
      what `IsSolved` accepts of it is a solution; a board the passes cannot
      advance comes back as it went in; and whenever the program's loop
      finishes within the budget, both hand back the same board. */
  lemma SolveBoundedFacts(g: Matrix, maxIterations: int, fuel: nat)
    requires IsWellFormed(g)
    ensures var r := SolveBounded(g, maxIterations);
            IsWellFormed(r) && |r| == |g| && Refines(g, r) &&
            (Sound(g) ==> Sound(r) && (IsSolved(r) ==> IsSolution(r)))
    ensures Pass(g) == g && !IsSolved(g) ==> SolveBounded(g, maxIterations) == g
    ensures fuel <= maxIterations && Run(g, fuel).Some? ==> SolveBounded(g, maxIterations) == Run(g, fuel).value
  {
    var inv := h => Reached(g, h);
    forall h | inv(h)
      ensures inv(Step(h))
    {
      StepKeepsReached(g, h);
    }
    DoWhileBoundedKeeps(Step, Accepted, inv, g, maxIterations);
    var r := SolveBounded(g, maxIterations);
    if Sound(g) && IsSolved(r) {
      SolvedIsFilled(r);
    }
    if Pass(g) == g && !IsSolved(g) {
      DoWhileBoundedStuck(Step, Accepted, g, maxIterations);
    }
    if fuel <= maxIterations && Run(g, fuel).Some? {
      DoWhileBoundedAgrees(Step, Accepted, g, maxIterations, fuel);
    }
  }
}

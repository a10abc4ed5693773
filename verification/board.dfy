/** The N x N board the solvers share: the `short[,]` array as a sequence of
    rows, with 0 for an empty cell, together with the reference notions every
    algorithm is judged against (rows, columns, boxes, conflicts, solutions). */
module Board {
  import opened Arith
  import Positions

  type Matrix = seq<seq<int>>

  /** What a backtracking search hands back: whether it reported success, and
      the board as the search left it. */
  datatype Outcome = Outcome(solved: bool, grid: Matrix)

  predicate IsSquare(g: Matrix)
  {
    forall i :: 0 <= i < |g| ==> |g[i]| == |g|
  }

  /** `(int)Math.Sqrt(g.GetLength(0))`, the side of a box. */
  function BoxSize(g: Matrix): nat
  {
    Isqrt(|g|)
  }

  /** What the box scans need to stay inside the array: a square board whose
      box side divides its size (every N = k*k qualifies). */
  predicate IsWellFormed(g: Matrix)
  {
    IsSquare(g) && (|g| > 0 ==> BoxSize(g) > 0 && |g| % BoxSize(g) == 0)
  }

  predicate InBounds(g: Matrix, r: int, c: int)
  {
    0 <= r < |g| && 0 <= c < |g|
  }

  /** `tab[r, c] = v`: one cell changes, every other cell keeps its value. */
  function SetCell(g: Matrix, r: int, c: int, v: int): (g': Matrix)
    requires IsSquare(g) && InBounds(g, r, c)
    ensures IsSquare(g') && |g'| == |g|
    ensures g'[r][c] == v
    ensures forall i, j {:trigger g'[i][j]} :: InBounds(g, i, j) && (i != r || j != c) ==> g'[i][j] == g[i][j]
  {
    g[r := g[r][c := v]]
  }

  lemma SetCellKeepsWellFormed(g: Matrix, r: int, c: int, v: int)
    requires IsWellFormed(g) && InBounds(g, r, c)
    ensures IsWellFormed(SetCell(g, r, c, v)) && BoxSize(SetCell(g, r, c, v)) == BoxSize(g)
  {
  }

  /** Writing back the value a cell already holds changes nothing. */
  lemma SetCellSame(g: Matrix, r: int, c: int)
    requires IsSquare(g) && InBounds(g, r, c)
    ensures SetCell(g, r, c, g[r][c]) == g
  {
    assert g[r][c := g[r][c]] == g[r];
  }

  /** A second write to the same cell overrides the first. */
  lemma SetCellTwice(g: Matrix, r: int, c: int, v: int, w: int)
    requires IsSquare(g) && InBounds(g, r, c)
    ensures SetCell(SetCell(g, r, c, v), r, c, w) == SetCell(g, r, c, w)
  {
    assert g[r][c := v][c := w] == g[r][c := w];
  }

  // ---------------------------------------------------------------- units

  ghost predicate InRow(g: Matrix, r: int, v: int)
    requires IsSquare(g) && 0 <= r < |g|
  {
    exists j :: 0 <= j < |g| && g[r][j] == v
  }

  ghost predicate InColumn(g: Matrix, c: int, v: int)
    requires IsSquare(g) && 0 <= c < |g|
  {
    exists i :: 0 <= i < |g| && g[i][c] == v
  }

  /** Same box: the same box origin on both axes. */
  predicate SameBox(k: int, r1: int, c1: int, r2: int, c2: int)
    requires k > 0
  {
    BoxStart(r1, k) == BoxStart(r2, k) && BoxStart(c1, k) == BoxStart(c2, k)
  }

  ghost predicate InBox(g: Matrix, r: int, c: int, v: int)
    requires IsWellFormed(g) && InBounds(g, r, c)
  {
    exists i, j {:trigger SameBox(BoxSize(g), i, j, r, c)} ::
      0 <= i < |g| && 0 <= j < |g| && SameBox(BoxSize(g), i, j, r, c) && g[i][j] == v
  }

  /** For i >= 0, sharing r's box origin is the same as lying in [start, start + k). */
  lemma BoxRange(i: int, r: int, k: int, n: int)
    requires 0 < k && 0 <= r < n && n % k == 0 && 0 <= i
    ensures BoxStart(i, k) == BoxStart(r, k) <==> BoxStart(r, k) <= i < BoxStart(r, k) + k
  {
    BoxStartFacts(r, k, n);
    var b := r / k;
    if BoxStart(r, k) <= i < BoxStart(r, k) + k {
      InBoxOrigin(i, k, b);
    }
    if BoxStart(i, k) == BoxStart(r, k) {
      assert i == BoxStart(i, k) + i % k;
    }
  }

  predicate SameUnit(k: int, r1: int, c1: int, r2: int, c2: int)
    requires k > 0
  {
    r1 == r2 || c1 == c2 || SameBox(k, r1, c1, r2, c2)
  }

  /** No non-zero value occurs twice in a row, a column or a box. */
  ghost predicate ConflictFree(g: Matrix)
    requires IsWellFormed(g)
  {
    forall r1, c1, r2, c2 {:trigger SameUnit(BoxSize(g), r1, c1, r2, c2)} ::
      InBounds(g, r1, c1) && InBounds(g, r2, c2) && (r1 != r2 || c1 != c2) &&
      SameUnit(BoxSize(g), r1, c1, r2, c2) && g[r1][c1] != 0
      ==> g[r1][c1] != g[r2][c2]
  }

  ghost predicate ValuesInRange(g: Matrix)
    requires IsSquare(g)
  {
    forall i, j {:trigger g[i][j]} :: InBounds(g, i, j) ==> 0 <= g[i][j] <= |g|
  }

  ghost predicate NoZeros(g: Matrix)
    requires IsSquare(g)
  {
    forall i, j {:trigger g[i][j]} :: InBounds(g, i, j) ==> g[i][j] != 0
  }

  ghost predicate AllZero(g: Matrix)
    requires IsSquare(g)
  {
    forall i, j {:trigger g[i][j]} :: InBounds(g, i, j) ==> g[i][j] == 0
  }

  /** A solved board: full, values in 1..N, no value twice in any unit. */
  ghost predicate IsSolution(g: Matrix)
  {
    IsWellFormed(g) && NoZeros(g) && ValuesInRange(g) && ConflictFree(g)
  }

  /** g' keeps every non-zero cell of g: the solvers only ever fill blanks. */
  ghost predicate Refines(g: Matrix, g': Matrix)
    requires IsSquare(g)
  {
    IsSquare(g') && |g'| == |g| &&
    forall i, j {:trigger g[i][j]} {:trigger g'[i][j]} :: InBounds(g, i, j) && g[i][j] != 0 ==> g'[i][j] == g[i][j]
  }

  /** Refinement chains: a given kept by two searches in a row is kept. A
      convenience fact: it follows from the definition alone. */
  lemma RefinesTransitive(a: Matrix, b: Matrix, c: Matrix)
    requires IsSquare(a) && Refines(a, b) && Refines(b, c)
    ensures Refines(a, c)
  {
  }

  // ------------------------------------------------- cells by position

  /** The cell at a position, read and written. */
  function At(g: Matrix, q: Positions.Position): int
    requires IsSquare(g) && Positions.InRange(q, |g|)
  {
    g[q.row][q.column]
  }

  function Put(g: Matrix, q: Positions.Position, v: int): (g': Matrix)
    requires IsSquare(g) && Positions.InRange(q, |g|)
    ensures IsSquare(g') && |g'| == |g|
  {
    g[q.row := g[q.row][q.column := v]]
  }

  lemma PutAt(g: Matrix, q: Positions.Position, v: int, x: Positions.Position)
    requires IsSquare(g) && Positions.InRange(q, |g|) && Positions.InRange(x, |g|)
    ensures At(Put(g, q, v), x) == if x == q then v else At(g, x)
  {
  }

  /** Writing a cell's own value changes nothing. */
  lemma PutSame(g: Matrix, q: Positions.Position)
    requires IsSquare(g) && Positions.InRange(q, |g|)
    ensures Put(g, q, At(g, q)) == g
  {
    assert g[q.row][q.column := At(g, q)] == g[q.row];
  }

  /** A second write to the same cell overrides the first. */
  lemma PutTwice(g: Matrix, q: Positions.Position, v: int, w: int)
    requires IsSquare(g) && Positions.InRange(q, |g|)
    ensures Put(Put(g, q, v), q, w) == Put(g, q, w)
  {
    assert g[q.row][q.column := v][q.column := w] == g[q.row][q.column := w];
  }

  // ------------------------------------------------ writes and conflicts

  /** Placing v where it is absent from the cell's row, column and box keeps
      the board conflict-free; this is the step every solver repeats. */
  lemma PlaceKeepsConflictFree(g: Matrix, r: int, c: int, v: int)
    requires IsWellFormed(g) && InBounds(g, r, c) && ConflictFree(g)
    requires !InRow(g, r, v) && !InColumn(g, c, v) && !InBox(g, r, c, v)
    ensures IsWellFormed(SetCell(g, r, c, v)) && ConflictFree(SetCell(g, r, c, v))
  {
    var g' := SetCell(g, r, c, v);
    var k := BoxSize(g);
    forall r1, c1, r2, c2 |
      InBounds(g', r1, c1) && InBounds(g', r2, c2) && (r1 != r2 || c1 != c2) &&
      SameUnit(k, r1, c1, r2, c2) && g'[r1][c1] != 0
      ensures g'[r1][c1] != g'[r2][c2]
    {
      if r1 == r && c1 == c {
        if r2 == r {
          assert g[r][c2] != v;
        } else if c2 == c {
          assert g[r2][c] != v;
        } else {
          assert SameBox(k, r2, c2, r, c);
          assert g[r2][c2] != v;
        }
      } else if r2 == r && c2 == c {
        if r1 == r {
          assert g[r][c1] != v;
        } else if c1 == c {
          assert g[r1][c] != v;
        } else {
          assert SameBox(k, r1, c1, r, c);
          assert g[r1][c1] != v;
        }
      }
    }
  }

  /** Emptying a cell cannot create a conflict. */
  lemma ClearKeepsConflictFree(g: Matrix, r: int, c: int)
    requires IsWellFormed(g) && InBounds(g, r, c) && ConflictFree(g)
    ensures IsWellFormed(SetCell(g, r, c, 0)) && ConflictFree(SetCell(g, r, c, 0))
  {
    var g' := SetCell(g, r, c, 0);
    forall r1, c1, r2, c2 |
      InBounds(g', r1, c1) && InBounds(g', r2, c2) && (r1 != r2 || c1 != c2) &&
      SameUnit(BoxSize(g), r1, c1, r2, c2) && g'[r1][c1] != 0
      ensures g'[r1][c1] != g'[r2][c2]
    {
      if !(r2 == r && c2 == c) {
        assert g'[r1][c1] == g[r1][c1] && g'[r2][c2] == g[r2][c2];
      }
    }
  }

  /** What every solver keeps: a well-formed, conflict-free board whose cells
      hold 0 (blank) or a value in 1..N. */
  ghost predicate Sound(g: Matrix)
  {
    IsWellFormed(g) && ConflictFree(g) && ValuesInRange(g)
  }

  lemma SoundAfterPlace(g: Matrix, r: int, c: int, v: int)
    requires Sound(g) && InBounds(g, r, c) && 1 <= v <= |g|
    requires !InRow(g, r, v) && !InColumn(g, c, v) && !InBox(g, r, c, v)
    ensures Sound(SetCell(g, r, c, v))
  {
    PlaceKeepsConflictFree(g, r, c, v);
  }

  lemma SoundAfterClear(g: Matrix, r: int, c: int)
    requires Sound(g) && InBounds(g, r, c)
    ensures Sound(SetCell(g, r, c, 0))
  {
    ClearKeepsConflictFree(g, r, c);
  }

  /** A blank cell of a board some solution refines can take the solution's
      value there: no given cell of the cell's units already holds it. */
  lemma SolutionValueFits(g: Matrix, s: Matrix, r: int, c: int)
    requires IsWellFormed(g) && IsSolution(s) && Refines(g, s)
    requires InBounds(g, r, c) && g[r][c] == 0
    ensures 1 <= s[r][c] <= |g|
    ensures !InRow(g, r, s[r][c]) && !InColumn(g, c, s[r][c]) && !InBox(g, r, c, s[r][c])
  {
    var w := s[r][c];
    var k := BoxSize(g);
    forall j | 0 <= j < |g|
      ensures g[r][j] != w
    {
      if j != c {
        assert SameUnit(k, r, j, r, c);
      }
    }
    forall i | 0 <= i < |g|
      ensures g[i][c] != w
    {
      if i != r {
        assert SameUnit(k, i, c, r, c);
      }
    }
    forall i, j | 0 <= i < |g| && 0 <= j < |g| && SameBox(k, i, j, r, c)
      ensures g[i][j] != w
    {
      if i != r || j != c {
        assert SameUnit(k, i, j, r, c);
      }
    }
  }

  // ----------------------------------------------------------- pigeonhole

  lemma SubsetCard(a: set<int>, b: set<int>)
    ensures a <= b ==> |a| <= |b|
  {
    if a <= b {
      assert b == a + (b - a);
      assert a * (b - a) == {};
    }
  }

  lemma DistinctCard(s: seq<int>)
    requires forall i, j :: 0 <= i < j < |s| ==> s[i] != s[j]
    ensures |(set x | x in s)| == |s|
  {
    if |s| > 0 {
      var t := s[..|s| - 1];
      DistinctCard(t);
      assert (set x | x in s) == (set x | x in t) + {s[|s| - 1]};
      assert s[|s| - 1] !in (set x | x in t);
    }
  }

  /** The set {1, ..., n}. */
  function Interval(n: nat): (r: set<int>)
    ensures |r| == n
    ensures forall v :: v in r <==> 1 <= v <= n
  {
    if n == 0 then {} else Interval(n - 1) + {n}
  }

  /** n pairwise different values drawn from 1..n take every value of 1..n. */
  lemma Pigeonhole(s: seq<int>)
    requires forall i :: 0 <= i < |s| ==> 1 <= s[i] <= |s|
    requires forall i, j :: 0 <= i < j < |s| ==> s[i] != s[j]
    ensures forall v :: 1 <= v <= |s| ==> v in s
  {
    var present := set x | x in s;
    var interval := Interval(|s|);
    DistinctCard(s);
    forall v | 1 <= v <= |s|
      ensures v in s
    {
      assert v !in s ==> present <= interval - {v};
      SubsetCard(present, interval - {v});
    }
  }

  /** In a solution every row holds every value 1..N. */
  lemma SolutionRowCovers(g: Matrix, r: int, v: int)
    requires IsSolution(g) && 0 <= r < |g| && 1 <= v <= |g|
    ensures InRow(g, r, v)
  {
    var row := g[r];
    forall i, j | 0 <= i < j < |row|
      ensures row[i] != row[j]
    {
      assert SameUnit(BoxSize(g), r, i, r, j);
    }
    Pigeonhole(row);
    assert v in row;
    var j :| 0 <= j < |row| && row[j] == v;
  }

  // ------------------------------------------------------------- counting

  function Zeros(s: seq<int>): nat
  {
    if |s| == 0 then 0 else (if s[0] == 0 then 1 else 0) + Zeros(s[1..])
  }

  function NonZeros(s: seq<int>): nat
  {
    if |s| == 0 then 0 else (if s[0] != 0 then 1 else 0) + NonZeros(s[1..])
  }

  /** The number of empty cells. */
  function ZeroCount(g: Matrix): nat
  {
    ZerosBelow(g, |g|)
  }

  /** The number of filled cells, the `filledCount` of the fill percentage. */
  function FilledCount(g: Matrix): nat
  {
    FilledBelow(g, |g|)
  }

  /** Empty cells in the first n rows. */
  function ZerosBelow(g: Matrix, n: int): nat
    requires 0 <= n <= |g|
  {
    if n == 0 then 0 else ZerosBelow(g, n - 1) + Zeros(g[n - 1])
  }

  /** Filled cells in the first n rows. */
  function FilledBelow(g: Matrix, n: int): nat
    requires 0 <= n <= |g|
  {
    if n == 0 then 0 else FilledBelow(g, n - 1) + NonZeros(g[n - 1])
  }

  lemma {:induction false} ZerosUpdate(s: seq<int>, j: int, v: int)
    requires 0 <= j < |s|
    ensures Zeros(s[j := v]) + (if s[j] == 0 then 1 else 0) == Zeros(s) + (if v == 0 then 1 else 0)
  {
    if j > 0 {
      ZerosUpdate(s[1..], j - 1, v);
      assert s[j := v][1..] == s[1..][j - 1 := v];
    } else {
      assert s[j := v][1..] == s[1..];
    }
  }

  lemma {:induction false} ZerosBelowUpdate(g: Matrix, r: int, row: seq<int>, n: int)
    requires 0 <= r < |g| && 0 <= n <= |g|
    ensures ZerosBelow(g[r := row], n) + (if r < n then Zeros(g[r]) else 0) ==
            ZerosBelow(g, n) + (if r < n then Zeros(row) else 0)
  {
    if n > 0 {
      ZerosBelowUpdate(g, r, row, n - 1);
    }
  }

  /** Filling an empty cell lowers the number of empty cells by exactly one. */
  lemma FillOneCell(g: Matrix, r: int, c: int, v: int)
    requires IsSquare(g) && InBounds(g, r, c) && g[r][c] == 0 && v != 0
    ensures ZeroCount(SetCell(g, r, c, v)) + 1 == ZeroCount(g)
  {
    ZerosUpdate(g[r], c, v);
    ZerosBelowUpdate(g, r, g[r][c := v], |g|);
  }

  /** `FillOneCell` for a write by position. */
  lemma PutFillsOne(g: Matrix, q: Positions.Position, v: int)
    requires IsSquare(g) && Positions.InRange(q, |g|) && At(g, q) == 0 && v != 0
    ensures ZeroCount(Put(g, q, v)) + 1 == ZeroCount(g)
  {
    FillOneCell(g, q.row, q.column, v);
  }

  lemma {:induction false} ZerosPlusNonZeros(s: seq<int>)
    ensures Zeros(s) + NonZeros(s) == |s|
  {
    if |s| > 0 {
      ZerosPlusNonZeros(s[1..]);
    }
  }

  /** Empty and filled cells together are all N*N cells. */
  lemma CountsAddUp(g: Matrix)
    requires IsSquare(g)
    ensures ZeroCount(g) + FilledCount(g) == |g| * |g|
  {
    RowsCountsAddUp(g, |g|);
  }

  lemma {:induction false} RowsCountsAddUp(g: Matrix, n: int)
    requires IsSquare(g) && 0 <= n <= |g|
    ensures ZerosBelow(g, n) + FilledBelow(g, n) == n * |g|
  {
    if n > 0 {
      RowsCountsAddUp(g, n - 1);
      ZerosPlusNonZeros(g[n - 1]);
      MulSucc(n - 1, |g|);
    }
  }

  lemma ZeroCountZeroIff(g: Matrix)
    ensures ZeroCount(g) == 0 <==> forall i, j :: 0 <= i < |g| && 0 <= j < |g[i]| ==> g[i][j] != 0
  {
    RowsZeroIff(g, |g|);
  }

  lemma {:induction false} RowsZeroIff(g: Matrix, n: int)
    requires 0 <= n <= |g|
    ensures ZerosBelow(g, n) == 0 <==> forall i, j :: 0 <= i < n && 0 <= j < |g[i]| ==> g[i][j] != 0
  {
    if n > 0 {
      RowsZeroIff(g, n - 1);
      ZerosZeroIff(g[n - 1]);
    }
  }

  lemma {:induction false} ZerosZeroIff(s: seq<int>)
    ensures Zeros(s) == 0 <==> forall j :: 0 <= j < |s| ==> s[j] != 0
  {
    if |s| > 0 {
      ZerosZeroIff(s[1..]);
      assert forall j :: 1 <= j < |s| ==> s[j] == s[1..][j - 1];
    }
  }

  /** A board with no zero has every cell filled. */
  lemma FullCount(g: Matrix)
    requires IsSquare(g) && NoZeros(g)
    ensures FilledCount(g) == |g| * |g|
  {
    ZeroCountZeroIff(g);
    CountsAddUp(g);
  }

  /** A board of zeros has no filled cell. */
  lemma EmptyCount(g: Matrix)
    requires IsSquare(g) && AllZero(g)
    ensures FilledCount(g) == 0
  {
    RowsAllZero(g, |g|);
  }

  lemma {:induction false} RowsAllZero(g: Matrix, n: int)
    requires 0 <= n <= |g|
    requires forall i, j :: 0 <= i < n && 0 <= j < |g[i]| ==> g[i][j] == 0
    ensures FilledBelow(g, n) == 0
  {
    if n > 0 {
      NonZerosAllZero(g[n - 1]);
      RowsAllZero(g, n - 1);
    }
  }

  lemma {:induction false} NonZerosAllZero(s: seq<int>)
    requires forall j :: 0 <= j < |s| ==> s[j] == 0
    ensures NonZeros(s) == 0
  {
    if |s| > 0 {
      NonZerosAllZero(s[1..]);
    }
  }

  /** Keeping every filled cell can only keep or raise the number of filled cells. */
  lemma RefinesCount(g: Matrix, g': Matrix)
    requires IsSquare(g) && Refines(g, g')
    ensures ZeroCount(g') <= ZeroCount(g) && FilledCount(g) <= FilledCount(g')
  {
    RowsRefineCount(g, g', |g|);
  }

  lemma {:induction false} RowsRefineCount(g: Matrix, g': Matrix, n: int)
    requires IsSquare(g) && Refines(g, g') && 0 <= n <= |g|
    ensures ZerosBelow(g', n) <= ZerosBelow(g, n) && FilledBelow(g, n) <= FilledBelow(g', n)
  {
    if n > 0 {
      RowRefineCount(g[n - 1], g'[n - 1]);
      RowsRefineCount(g, g', n - 1);
    }
  }

  lemma {:induction false} RowRefineCount(s: seq<int>, t: seq<int>)
    requires |s| == |t| && forall j :: 0 <= j < |s| && s[j] != 0 ==> t[j] == s[j]
    ensures Zeros(t) <= Zeros(s) && NonZeros(s) <= NonZeros(t)
  {
    if |s| > 0 {
      RowRefineCount(s[1..], t[1..]);
    }
  }
}

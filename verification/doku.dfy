/** The candidate logic of doku/Doku.cs: the values 1..N still free for a cell
    (`GetSlotPossibilities` with its row, column and section helpers) and the
    two whole-board scans `IsFilled` and `IsSolved`. The program keeps the
    candidate lists in fields it clears and refills; here each list is the
    value the helper leaves behind. */
module Doku {
  import opened Arith
  import opened Board

  // ------------------------------------------------------ candidate lists

  /** Strictly increasing, hence free of duplicates. */
  predicate Ascending(s: seq<int>)
  {
    forall i, j :: 0 <= i < j < |s| ==> s[i] < s[j]
  }

  /** The list `for (short i = 1; i <= n; i++) list.Add(i)` builds. */
  function Range1(n: nat): (s: seq<int>)
    ensures |s| == n && Ascending(s)
    ensures forall i :: 0 <= i < n ==> s[i] == i + 1
  {
    if n == 0 then [] else Range1(n - 1) + [n]
  }

  /** `List.Remove(x)`: drops the first occurrence of x, if any. */
  function RemoveFirst(s: seq<int>, x: int): (r: seq<int>)
    ensures |r| == if x in s then |s| - 1 else |s|
    ensures forall v :: v in r ==> v in s
    ensures forall v :: v in s && v != x ==> v in r
    ensures Ascending(s) ==> Ascending(r) && x !in r
  {
    if |s| == 0 then s
    else if s[0] == x then
      assert forall t :: 1 <= t < |s| ==> s[t] == s[1..][t - 1];
      s[1..]
    else
      var rest := RemoveFirst(s[1..], x);
      assert forall v :: v in s <==> v == s[0] || v in s[1..];
      assert Ascending(s) ==> forall t :: 0 <= t < |rest| ==> s[0] < rest[t] by {
        if Ascending(s) {
          forall t | 0 <= t < |rest|
            ensures s[0] < rest[t]
          {
            assert rest[t] in s[1..];
          }
        }
      }
      [s[0]] + rest
  }

  /** The scan `foreach x in values: if (list.Contains(x)) list.Remove(x)`. */
  function RemoveEach(s: seq<int>, values: seq<int>): (r: seq<int>)
    ensures Ascending(s) ==> Ascending(r) && forall v :: v in r <==> v in s && v !in values
    decreases |values|
  {
    if |values| == 0 then s
    else
      var s' := if values[0] in s then RemoveFirst(s, values[0]) else s;
      assert forall v :: v in values <==> v == values[0] || v in values[1..];
      RemoveEach(s', values[1..])
  }

  /** The elements of s that are also in a and in b, in the order of s. */
  function KeepCommon(s: seq<int>, a: seq<int>, b: seq<int>): (r: seq<int>)
    ensures forall v :: v in r <==> v in s && v in a && v in b
    ensures Ascending(s) ==> Ascending(r)
    ensures |r| <= |s|
  {
    if |s| == 0 then []
    else
      var rest := KeepCommon(s[1..], a, b);
      assert forall v :: v in s <==> v == s[0] || v in s[1..];
      assert Ascending(s) ==> forall t :: 0 <= t < |rest| ==> s[0] < rest[t] by {
        if Ascending(s) {
          forall t | 0 <= t < |rest|
            ensures s[0] < rest[t]
          {
            assert rest[t] in s[1..];
          }
        }
      }
      if s[0] in a && s[0] in b then [s[0]] + rest else rest
  }

  /** Column c from top to bottom. */
  function ColumnOf(g: Matrix, c: int): (col: seq<int>)
    requires IsSquare(g) && 0 <= c < |g|
    ensures |col| == |g| && forall i :: 0 <= i < |g| ==> col[i] == g[i][c]
  {
    seq(|g|, i requires 0 <= i < |g| => g[i][c])
  }

  /** Rows r0+i .. r0+k-1 of the box whose columns are c0 .. c0+k-1, row by row. */
  function BoxRows(g: Matrix, r0: int, c0: int, k: nat, i: nat): (s: seq<int>)
    requires IsSquare(g) && 0 <= r0 && r0 + k <= |g| && 0 <= c0 && c0 + k <= |g| && i <= k
    ensures forall v :: v in s <==> exists a, b :: r0 + i <= a < r0 + k && c0 <= b < c0 + k && g[a][b] == v
    decreases k - i
  {
    if i == k then []
    else
      var rest := BoxRows(g, r0, c0, k, i + 1);
      var row := g[r0 + i][c0..c0 + k];
      var line := g[r0 + i];
      assert forall t :: 0 <= t < |row| ==> row[t] == line[c0 + t];
      forall b | c0 <= b < c0 + k
        ensures line[b] in row
      {
        assert row[b - c0] == line[b];
      }
      row + rest
  }

  /** The box values of (r, c) in the order the section scan visits them. */
  function BoxValues(g: Matrix, r: int, c: int): (s: seq<int>)
    requires IsWellFormed(g) && InBounds(g, r, c)
    ensures forall v :: v in s <==> InBox(g, r, c, v)
  {
    var k := BoxSize(g);
    BoxStartFacts(r, k, |g|);
    BoxStartFacts(c, k, |g|);
    var s := BoxRows(g, (r / k) * k, (c / k) * k, k, 0);
    forall v
      ensures v in s <==> InBox(g, r, c, v)
    {
      if v in s {
        var a, b :| (r / k) * k <= a < (r / k) * k + k && (c / k) * k <= b < (c / k) * k + k && g[a][b] == v;
        BoxRange(a, r, k, |g|);
        BoxRange(b, c, k, |g|);
        assert SameBox(k, a, b, r, c);
      }
      if InBox(g, r, c, v) {
        var a, b :| 0 <= a < |g| && 0 <= b < |g| && SameBox(k, a, b, r, c) && g[a][b] == v;
        BoxRange(a, r, k, |g|);
        BoxRange(b, c, k, |g|);
      }
    }
    s
  }

  /** `GetRowPossibilities`: 1..N less every value of row r. */
  function RowPossibilities(g: Matrix, r: int): (p: seq<int>)
    requires IsSquare(g) && 0 <= r < |g|
    ensures Ascending(p)
    ensures forall v :: v in p <==> 1 <= v <= |g| && !InRow(g, r, v)
  {
    var p := RemoveEach(Range1(|g|), g[r]);
    assert forall v :: v in Range1(|g|) <==> 1 <= v <= |g| by {
      forall v | 1 <= v <= |g|
        ensures v in Range1(|g|)
      {
        assert Range1(|g|)[v - 1] == v;
      }
    }
    assert forall v :: v in g[r] <==> InRow(g, r, v) by {
      forall v | InRow(g, r, v)
        ensures v in g[r]
      {
        var j :| 0 <= j < |g| && g[r][j] == v;
      }
    }
    p
  }

  /** `GetColumnPossibilities`: 1..N less every value of column c. */
  function ColumnPossibilities(g: Matrix, c: int): (p: seq<int>)
    requires IsSquare(g) && 0 <= c < |g|
    ensures Ascending(p)
    ensures forall v :: v in p <==> 1 <= v <= |g| && !InColumn(g, c, v)
  {
    var col := ColumnOf(g, c);
    var p := RemoveEach(Range1(|g|), col);
    assert forall v :: v in Range1(|g|) <==> 1 <= v <= |g| by {
      forall v | 1 <= v <= |g|
        ensures v in Range1(|g|)
      {
        assert Range1(|g|)[v - 1] == v;
      }
    }
    assert forall v :: v in col <==> InColumn(g, c, v) by {
      forall v | InColumn(g, c, v)
        ensures v in col
      {
        var i :| 0 <= i < |g| && g[i][c] == v;
        assert col[i] == v;
      }
    }
    p
  }

  /** `GetSectionPossibilities`: 1..N less every value of the box of (r, c). */
  function SectionPossibilities(g: Matrix, r: int, c: int): (p: seq<int>)
    requires IsWellFormed(g) && InBounds(g, r, c)
    ensures Ascending(p)
    ensures forall v :: v in p <==> 1 <= v <= |g| && !InBox(g, r, c, v)
  {
    var p := RemoveEach(Range1(|g|), BoxValues(g, r, c));
    assert forall v :: v in Range1(|g|) <==> 1 <= v <= |g| by {
      forall v | 1 <= v <= |g|
        ensures v in Range1(|g|)
      {
        assert Range1(|g|)[v - 1] == v;
      }
    }
    p
  }

  /** `GetSlotPossibilities`: the values of the row list that the column and
      section lists also hold, kept in the row list's (ascending) order. */
  function GetSlotPossibilities(g: Matrix, r: int, c: int): (p: seq<int>)
    requires IsWellFormed(g) && InBounds(g, r, c)
    ensures Ascending(p)
    ensures forall v :: v in p <==> 1 <= v <= |g| && !InRow(g, r, v) && !InColumn(g, c, v) && !InBox(g, r, c, v)
  {
    KeepCommon(RowPossibilities(g, r), ColumnPossibilities(g, c), SectionPossibilities(g, r, c))
  }

  /** Two ascending lists with the same elements are the same list. */
  lemma {:induction false} AscendingUnique(a: seq<int>, b: seq<int>)
    requires Ascending(a) && Ascending(b)
    requires forall v :: v in a <==> v in b
    ensures a == b
  {
    assert |a| > 0 ==> a[0] in b by {
      if |a| > 0 {
        assert a[0] in a;
      }
    }
    assert |b| > 0 ==> b[0] in a by {
      if |b| > 0 {
        assert b[0] in b;
      }
    }
    if |a| > 0 {
      var i :| 0 <= i < |b| && b[i] == a[0];
      var j :| 0 <= j < |a| && a[j] == b[0];
      assert a[0] == b[0];
      forall v
        ensures v in a[1..] <==> v in b[1..]
      {
        assert v in a <==> v == a[0] || v in a[1..];
        assert v in b <==> v == b[0] || v in b[1..];
      }
      AscendingUnique(a[1..], b[1..]);
      assert a == [a[0]] + a[1..] && b == [b[0]] + b[1..];
    }
  }

  /** The candidates of a cell are at most N values. */
  lemma PossibilitiesAtMostN(g: Matrix, r: int, c: int)
    requires IsWellFormed(g) && InBounds(g, r, c)
    ensures |GetSlotPossibilities(g, r, c)| <= |g|
  {
    var p := GetSlotPossibilities(g, r, c);
    var rp := RowPossibilities(g, r);
    assert |p| <= |rp|;
    RemovalShrinks(Range1(|g|), g[r]);
  }

  lemma {:induction false} RemovalShrinks(s: seq<int>, values: seq<int>)
    ensures |RemoveEach(s, values)| <= |s|
    decreases |values|
  {
    if |values| > 0 {
      var s' := if values[0] in s then RemoveFirst(s, values[0]) else s;
      RemovalShrinks(s', values[1..]);
    }
  }

  /** On an empty board every cell may take any of 1..N, in that order. */
  lemma EmptyBoardPossibilities(g: Matrix, r: int, c: int)
    requires IsWellFormed(g) && InBounds(g, r, c) && AllZero(g)
    ensures GetSlotPossibilities(g, r, c) == Range1(|g|)
  {
    var p := GetSlotPossibilities(g, r, c);
    forall v
      ensures v in p <==> v in Range1(|g|)
    {
      if 1 <= v <= |g| {
        assert Range1(|g|)[v - 1] == v;
        assert !InBox(g, r, c, v);
      }
    }
    AscendingUnique(p, Range1(|g|));
  }

  /** A cell's own value never counts among its candidates. */
  lemma OwnValueNotPossible(g: Matrix, r: int, c: int)
    requires IsWellFormed(g) && InBounds(g, r, c)
    ensures g[r][c] !in GetSlotPossibilities(g, r, c)
  {
    assert InRow(g, r, g[r][c]);
  }

  // ------------------------------------------------------ board scans

  /** Every cell from (i, j) onwards in row-major order. */
  ghost predicate FromOnwards(i: int, j: int, a: int, b: int)
  {
    (a == i && j <= b) || i < a
  }

  /** The row-major scan of `IsFilled` from cell (i, j); column N stands for
      the step to the next row. */
  function FilledFrom(g: Matrix, i: int, j: int): (b: bool)
    requires IsSquare(g) && 0 <= i <= |g| && 0 <= j <= |g|
    ensures b <==> forall a, c :: InBounds(g, a, c) && FromOnwards(i, j, a, c) ==> g[a][c] != 0
    decreases |g| - i, |g| - j
  {
    if i == |g| then true
    else if j == |g| then FilledFrom(g, i + 1, 0)
    else g[i][j] != 0 && FilledFrom(g, i, j + 1)
  }

  /** `IsFilled`: no cell holds 0. */
  function IsFilled(g: Matrix): (b: bool)
    requires IsSquare(g)
    ensures b <==> NoZeros(g)
  {
    FilledFrom(g, 0, 0)
  }

  /** Every value 1..N already sits in the cell's row, column or box. */
  ghost predicate Blocked(g: Matrix, r: int, c: int)
    requires IsWellFormed(g) && InBounds(g, r, c)
  {
    forall v :: 1 <= v <= |g| ==> InRow(g, r, v) || InColumn(g, c, v) || InBox(g, r, c, v)
  }

  lemma NoPossibilityIffBlocked(g: Matrix, r: int, c: int)
    requires IsWellFormed(g) && InBounds(g, r, c)
    ensures |GetSlotPossibilities(g, r, c)| == 0 <==> Blocked(g, r, c)
  {
    var p := GetSlotPossibilities(g, r, c);
    if |p| > 0 {
      assert p[0] in p;
    }
  }

  /** Cell (r, c) as `IsSolved` checks it: filled, and no candidate left. */
  predicate CellSolved(g: Matrix, r: int, c: int)
    requires IsWellFormed(g) && InBounds(g, r, c)
  {
    g[r][c] != 0 && |GetSlotPossibilities(g, r, c)| == 0
  }

  /** The verdict `IsSolved` reaches on each cell. */
  function Verdicts(g: Matrix): (v: seq<seq<bool>>)
    requires IsWellFormed(g)
    ensures |v| == |g| && forall r :: 0 <= r < |g| ==> |v[r]| == |g|
  {
    seq(|g|, r requires 0 <= r < |g| =>
      seq(|g|, c requires 0 <= c < |g| => CellSolved(g, r, c)))
  }

  /** The loops of `IsSolved` over the verdicts, from cell (i, j) on in
      row-major order, stopping at the first false one. */
  function AllFrom(v: seq<seq<bool>>, i: int, j: int): (b: bool)
    requires forall a :: 0 <= a < |v| ==> |v[a]| == |v|
    requires 0 <= i <= |v| && 0 <= j <= |v|
    ensures b <==> forall a, c :: 0 <= a < |v| && 0 <= c < |v| && FromOnwards(i, j, a, c) ==> v[a][c]
    decreases |v| - i, |v| - j
  {
    if i == |v| then true
    else if j == |v| then AllFrom(v, i + 1, 0)
    else v[i][j] && AllFrom(v, i, j + 1)
  }

  /** `IsSolved`: every cell is filled and has no candidate left, which
      is to say its row, column and box together already hold 1..N. */
  function IsSolved(g: Matrix): (b: bool)
    requires IsWellFormed(g)
    ensures b <==> NoZeros(g) && forall r, c :: InBounds(g, r, c) ==> Blocked(g, r, c)
  {
    var v := Verdicts(g);
    forall r, c | InBounds(g, r, c)
      ensures v[r][c] <==> g[r][c] != 0 && Blocked(g, r, c)
    {
      NoPossibilityIffBlocked(g, r, c);
    }
    AllFrom(v, 0, 0)
  }

  lemma SolvedIsFilled(g: Matrix)
    requires IsWellFormed(g) && IsSolved(g)
    ensures IsFilled(g)
  {
  }

  /** A valid completed board passes `IsSolved`. */
  lemma SolutionIsSolved(g: Matrix)
    requires IsSolution(g)
    ensures IsSolved(g)
  {
    forall r, c | InBounds(g, r, c)
      ensures Blocked(g, r, c)
    {
      forall v | 1 <= v <= |g|
        ensures InRow(g, r, v)
      {
        SolutionRowCovers(g, r, v);
      }
    }
  }

  /** The check is weaker than validity: a board whose every row holds 1..N
      passes it even when the columns repeat values. */
  lemma RowsCoveredIsSolved(g: Matrix)
    requires IsWellFormed(g) && NoZeros(g)
    requires forall r, v :: 0 <= r < |g| && 1 <= v <= |g| ==> InRow(g, r, v)
    ensures IsSolved(g)
  {
  }

  /** Two equal filled cells in one column are a conflict. */
  lemma ColumnRepeatConflicts(g: Matrix, r1: int, r2: int, c: int)
    requires IsWellFormed(g) && InBounds(g, r1, c) && InBounds(g, r2, c) && r1 != r2
    requires g[r1][c] != 0 && g[r1][c] == g[r2][c]
    ensures !ConflictFree(g)
  {
    assert SameUnit(BoxSize(g), r1, c, r2, c);
  }

  /** N >= 2 copies of the row 1 2 .. N, e.g. four rows 1 2 3 4: `IsSolved`
      holds, yet column 0 holds 1 in every row. */
  lemma SolvedButNotSolution(g: Matrix)
    requires IsWellFormed(g) && |g| >= 2
    requires forall i :: 0 <= i < |g| ==> g[i] == Range1(|g|)
    ensures IsSolved(g) && !IsSolution(g)
  {
    forall r, v | 0 <= r < |g| && 1 <= v <= |g|
      ensures InRow(g, r, v)
    {
      assert g[r][v - 1] == v;
    }
    RowsCoveredIsSolved(g);
    ColumnRepeatConflicts(g, 0, 1, 0);
  }
}

/** The placement tests of doku/solvers/Solver.cs: linear scans of a row, a
    column and a box for a number, and their conjunction `IsValidPlacement`. */
module Solver {
  import opened Arith
  import opened Board
  import opened Doku

  /** The loop of `IsInRow` from column i on. */
  function RowScan(g: Matrix, number: int, row: int, i: int): bool
    requires IsSquare(g) && 0 <= row < |g| && 0 <= i <= |g|
    decreases |g| - i
  {
    if i == |g| then false
    else g[row][i] == number || RowScan(g, number, row, i + 1)
  }

  /** The row loop finds the number exactly when a cell from column i on holds it. */
  lemma {:induction false} RowScanFinds(g: Matrix, number: int, row: int, i: int)
    requires IsSquare(g) && 0 <= row < |g| && 0 <= i <= |g|
    ensures RowScan(g, number, row, i) <==> exists j :: i <= j < |g| && g[row][j] == number
    decreases |g| - i
  {
    if i < |g| {
      RowScanFinds(g, number, row, i + 1);
    }
  }

  /** `IsInRow`: some cell of the row holds the number. */
  function IsInRow(g: Matrix, number: int, row: int): (b: bool)
    requires IsSquare(g) && 0 <= row < |g|
    ensures b <==> InRow(g, row, number)
  {
    RowScanFinds(g, number, row, 0);
    RowScan(g, number, row, 0)
  }

  /** The loop of `IsInColumn` from row i on. */
  function ColumnScan(g: Matrix, number: int, column: int, i: int): bool
    requires IsSquare(g) && 0 <= column < |g| && 0 <= i <= |g|
    decreases |g| - i
  {
    if i == |g| then false
    else g[i][column] == number || ColumnScan(g, number, column, i + 1)
  }

  /** The column loop finds the number exactly when a cell from row i on holds it. */
  lemma {:induction false} ColumnScanFinds(g: Matrix, number: int, column: int, i: int)
    requires IsSquare(g) && 0 <= column < |g| && 0 <= i <= |g|
    ensures ColumnScan(g, number, column, i) <==> exists j :: i <= j < |g| && g[j][column] == number
    decreases |g| - i
  {
    if i < |g| {
      ColumnScanFinds(g, number, column, i + 1);
    }
  }

  /** `IsInColumn`: some cell of the column holds the number. */
  function IsInColumn(g: Matrix, number: int, column: int): (b: bool)
    requires IsSquare(g) && 0 <= column < |g|
    ensures b <==> InColumn(g, column, number)
  {
    ColumnScanFinds(g, number, column, 0);
    ColumnScan(g, number, column, 0)
  }

  /** The inner loop of `IsInSection`: row i, columns j .. c0+k-1. */
  function SectionRowScan(g: Matrix, number: int, i: int, c0: int, k: int, j: int): bool
    requires IsSquare(g) && 0 <= i < |g| && 0 <= c0 <= j <= c0 + k <= |g|
    decreases c0 + k - j
  {
    if j == c0 + k then false
    else g[i][j] == number || SectionRowScan(g, number, i, c0, k, j + 1)
  }

  lemma {:induction false} SectionRowScanFinds(g: Matrix, number: int, i: int, c0: int, k: int, j: int)
    requires IsSquare(g) && 0 <= i < |g| && 0 <= c0 <= j <= c0 + k <= |g|
    ensures SectionRowScan(g, number, i, c0, k, j) <==> exists t :: j <= t < c0 + k && g[i][t] == number
    decreases c0 + k - j
  {
    if j < c0 + k {
      SectionRowScanFinds(g, number, i, c0, k, j + 1);
    }
  }

  /** The outer loop of `IsInSection`: rows i .. r0+k-1. */
  function SectionScan(g: Matrix, number: int, r0: int, c0: int, k: int, i: int): bool
    requires IsSquare(g) && 0 <= r0 <= i <= r0 + k <= |g| && 0 <= c0 && c0 + k <= |g|
    decreases r0 + k - i
  {
    if i == r0 + k then false
    else SectionRowScan(g, number, i, c0, k, c0) || SectionScan(g, number, r0, c0, k, i + 1)
  }

  /** The box loops find the number exactly when a cell of rows i .. r0+k-1
      and columns c0 .. c0+k-1 holds it. */
  lemma {:induction false} SectionScanFinds(g: Matrix, number: int, r0: int, c0: int, k: int, i: int)
    requires IsSquare(g) && 0 <= r0 <= i <= r0 + k <= |g| && 0 <= c0 && c0 + k <= |g|
    ensures SectionScan(g, number, r0, c0, k, i) <==>
            exists a, t :: i <= a < r0 + k && c0 <= t < c0 + k && g[a][t] == number
    decreases r0 + k - i
  {
    if i < r0 + k {
      SectionRowScanFinds(g, number, i, c0, k, c0);
      SectionScanFinds(g, number, r0, c0, k, i + 1);
    }
  }

  /** `IsInSection`: scans the k x k box whose corner is (row - row % k,
      column - column % k), k the integer square root of N. */
  function IsInSection(g: Matrix, number: int, row: int, column: int): (b: bool)
    requires IsWellFormed(g) && InBounds(g, row, column)
    ensures b <==> InBox(g, row, column, number)
  {
    var k := BoxSize(g);
    BoxStartFacts(row, k, |g|);
    BoxStartFacts(column, k, |g|);
    var b := SectionScan(g, number, BoxStart(row, k), BoxStart(column, k), k, BoxStart(row, k));
    SectionScanFinds(g, number, BoxStart(row, k), BoxStart(column, k), k, BoxStart(row, k));
    assert b <==> InBox(g, row, column, number) by {
      if b {
        var a, c :| BoxStart(row, k) <= a < BoxStart(row, k) + k &&
                    BoxStart(column, k) <= c < BoxStart(column, k) + k && g[a][c] == number;
        BoxRange(a, row, k, |g|);
        BoxRange(c, column, k, |g|);
        assert SameBox(k, a, c, row, column);
      }
      if InBox(g, row, column, number) {
        var a, c :| 0 <= a < |g| && 0 <= c < |g| && SameBox(k, a, c, row, column) && g[a][c] == number;
        BoxRange(a, row, k, |g|);
        BoxRange(c, column, k, |g|);
      }
    }
    b
  }

  /** `IsValidPlacement`: the number is in none of the cell's three units. */
  function IsValidPlacement(g: Matrix, number: int, row: int, column: int): (b: bool)
    requires IsWellFormed(g) && InBounds(g, row, column)
    ensures b <==> !InRow(g, row, number) && !InColumn(g, column, number) && !InBox(g, row, column, number)
  {
    !IsInRow(g, number, row) && !IsInColumn(g, number, column) && !IsInSection(g, number, row, column)
  }

  /** The two ways the program asks "may v go here" agree on 1..N: the scan
      test and membership in the candidate list. */
  lemma ValidIffPossible(g: Matrix, v: int, row: int, column: int)
    requires IsWellFormed(g) && InBounds(g, row, column) && 1 <= v <= |g|
    ensures IsValidPlacement(g, v, row, column) <==> v in GetSlotPossibilities(g, row, column)
  {
  }

  /** A value outside 1..N is never a candidate, whatever the scans say. */
  lemma OutOfRangeNeverPossible(g: Matrix, v: int, row: int, column: int)
    requires IsWellFormed(g) && InBounds(g, row, column) && !(1 <= v <= |g|)
    ensures v !in GetSlotPossibilities(g, row, column)
  {
  }

  /** The box corner `row - row % k` of this file and the `(row / k) * k` of
      the candidate code are the same row, and the box fits in the board. */
  lemma BoxOriginsAgree(g: Matrix, row: int)
    requires IsWellFormed(g) && 0 <= row < |g|
    ensures BoxStart(row, BoxSize(g)) == (row / BoxSize(g)) * BoxSize(g)
    ensures 0 <= BoxStart(row, BoxSize(g)) <= row < BoxStart(row, BoxSize(g)) + BoxSize(g) <= |g|
  {
    BoxStartFacts(row, BoxSize(g), |g|);
  }

  /** Placing a value the scans accept keeps a conflict-free board
      conflict-free. */
  lemma ValidPlacementKeepsConflictFree(g: Matrix, v: int, row: int, column: int)
    requires IsWellFormed(g) && InBounds(g, row, column) && ConflictFree(g)
    requires IsValidPlacement(g, v, row, column)
    ensures IsWellFormed(SetCell(g, row, column, v)) && ConflictFree(SetCell(g, row, column, v))
  {
    PlaceKeepsConflictFree(g, row, column, v);
  }
}

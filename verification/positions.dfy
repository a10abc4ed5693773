/** `Position` (doku/tools/Position.cs) and the row-major `Cursor`
    (doku/tools/Cursor.cs). Both classes are mutable references in the
    program; here they are values, so every copy is independent by
    construction and a "setter" returns the updated value. */
module Positions {
  import Arith

  datatype Position = Position(row: int, column: int)

  /** `new Position()`. */
  function Origin(): Position
  {
    Position(0, 0)
  }

  /** `new Position(position)`: the same coordinates in a new object. */
  function CopyPosition(p: Position): Position
  {
    Position(p.row, p.column)
  }

  datatype Cursor = Cursor(position: Position, gridSize: int)

  /** `new Cursor(row, column, gridSize)`. */
  function CursorAt(row: int, column: int, gridSize: int): Cursor
  {
    Cursor(Position(row, column), gridSize)
  }

  /** `new Cursor(gridSize)`: at the origin. */
  function NewCursor(gridSize: int): (c: Cursor)
    ensures c.position == Position(0, 0) && c.gridSize == gridSize
  {
    Cursor(Origin(), gridSize)
  }

  /** `new Cursor(cursor, gridSize)`: the other cursor's coordinates, the given size. */
  function CopyCursor(other: Cursor, gridSize: int): Cursor
  {
    Cursor(Position(other.position.row, other.position.column), gridSize)
  }

  /** `SetPosition(newPosition)`: copies the coordinates, keeps the size. */
  function SetPosition(c: Cursor, p: Position): Cursor
  {
    Cursor(Position(p.row, p.column), c.gridSize)
  }

  /** `SetPosition(newCursor)`: takes the other cursor's coordinates only. */
  function SetPositionFrom(c: Cursor, other: Cursor): Cursor
  {
    SetPosition(c, other.position)
  }

  /** `GetCopy()`. */
  function GetCopy(c: Cursor): Cursor
  {
    CopyCursor(c, c.gridSize)
  }

  /** `Reset()`. */
  function Reset(c: Cursor): Cursor
  {
    Cursor(Origin(), c.gridSize)
  }

  /** Copies carry the same coordinates and size; being values, moving one
      never moves another. `SetPosition` keeps the size, and `Reset` is a
      fresh cursor of the same size. A convenience fact: it follows from
      the definitions alone. */
  lemma CopiesAndSetters(p: Position, c: Cursor, other: Cursor)
    ensures CopyPosition(p) == p && GetCopy(c) == c
    ensures SetPosition(c, p).position == p && SetPosition(c, p).gridSize == c.gridSize
    ensures SetPositionFrom(c, other) == Cursor(other.position, c.gridSize)
    ensures Reset(c) == NewCursor(c.gridSize) && Reset(c) == CursorAt(0, 0, c.gridSize)
  {
  }

  predicate InRange(p: Position, n: int)
  {
    0 <= p.row < n && 0 <= p.column < n
  }

  /** The row-major rank of a position in an n-wide grid. */
  function Index(p: Position, n: int): int
  {
    p.row * n + p.column
  }

  lemma IndexBound(p: Position, n: int)
    requires InRange(p, n)
    ensures 0 <= Index(p, n) < n * n
  {
    Arith.MulLe(p.row, n - 1, n);
  }

  /** Two in-range positions with the same rank are the same position. */
  lemma IndexInjective(p: Position, q: Position, n: int)
    requires InRange(p, n) && InRange(q, n) && Index(p, n) == Index(q, n)
    ensures p == q
  {
    Arith.DivModUnique(Index(p, n), n, p.row, p.column);
    Arith.DivModUnique(Index(q, n), n, q.row, q.column);
  }

  /** q comes strictly before p in row-major order. */
  predicate Precedes(q: Position, p: Position)
  {
    q.row < p.row || (q.row == p.row && q.column < p.column)
  }

  /** `HasNext()`: some cell follows in row-major order. */
  function HasNext(c: Cursor): (b: bool)
    ensures InRange(c.position, c.gridSize) ==>
              (!b <==> c.position == Position(c.gridSize - 1, c.gridSize - 1))
  {
    c.position.row < c.gridSize - 1 || c.position.column < c.gridSize - 1
  }

  /** `Next()`: one column right, or the start of the next row when the
      column reaches the grid size. The rank always grows by one. */
  function Next(c: Cursor): (d: Cursor)
    ensures d.gridSize == c.gridSize
    ensures InRange(c.position, c.gridSize) && HasNext(c) ==> InRange(d.position, c.gridSize)
    ensures InRange(c.position, c.gridSize) ==>
              d.position == (if c.position.column + 1 < c.gridSize
                             then Position(c.position.row, c.position.column + 1)
                             else Position(c.position.row + 1, 0))
  {
    var column := c.position.column + 1;
    if column != c.gridSize then Cursor(Position(c.position.row, column), c.gridSize)
    else Cursor(Position(c.position.row + 1, 0), c.gridSize)
  }

  /** The rank grows by one with every `Next`. */
  lemma NextRank(c: Cursor)
    ensures Index(Next(c).position, c.gridSize) == Index(c.position, c.gridSize) + 1
  {
    Arith.MulSucc(c.position.row, c.gridSize);
  }

  /** `Previous()`: one column left, or the end of the previous row. The rank
      always shrinks by one. */
  function Previous(c: Cursor): (d: Cursor)
    ensures d.gridSize == c.gridSize
  {
    var column := c.position.column - 1;
    if column != -1 then Cursor(Position(c.position.row, column), c.gridSize)
    else Cursor(Position(c.position.row - 1, c.gridSize - 1), c.gridSize)
  }

  /** The rank shrinks by one with every `Previous`. */
  lemma PreviousRank(c: Cursor)
    ensures Index(Previous(c).position, c.gridSize) == Index(c.position, c.gridSize) - 1
  {
    Arith.MulSucc(c.position.row - 1, c.gridSize);
  }

  /** `Previous` undoes `Next` for any position whose column is in range. */
  lemma PreviousAfterNext(c: Cursor)
    requires 0 <= c.position.column < c.gridSize
    ensures Previous(Next(c)) == c
  {
  }

  /** `Next` undoes `Previous` for any position whose column is in range. */
  lemma NextAfterPrevious(c: Cursor)
    requires 0 <= c.position.column < c.gridSize
    ensures Next(Previous(c)) == c
  {
  }

  /** The bottom-right cell, where `HasNext()` turns false. */
  function Last(n: int): Position
  {
    Position(n - 1, n - 1)
  }

  /** The cell after p, as `new Cursor(N).SetPosition(p).Next()` finds it. */
  function After(p: Position, n: int): Position
  {
    Next(CursorAt(p.row, p.column, n)).position
  }

  /** The cells before the next position are the cells before p and p itself. */
  lemma PrecedesAfter(p: Position, q: Position, n: int)
    requires InRange(p, n) && HasNext(CursorAt(p.row, p.column, n)) && InRange(q, n)
    ensures Precedes(q, After(p, n)) <==> Precedes(q, p) || q == p
  {
  }

  /** The last cell follows every other cell; nothing follows it. */
  lemma LastIsLast(p: Position, n: int)
    requires InRange(p, n)
    ensures !HasNext(CursorAt(p.row, p.column, n)) <==> p == Last(n)
    ensures p != Last(n) ==> Precedes(p, Last(n))
  {
  }

  /** The positions a traversal visits: the current one, then on while
      `HasNext` holds, as the solver loops `while (HasNext()) { ...; Next(); }`
      plus the final cell they stop at. */
  function Walk(c: Cursor): (w: seq<Position>)
    requires InRange(c.position, c.gridSize)
    ensures |w| == c.gridSize * c.gridSize - Index(c.position, c.gridSize)
    ensures forall t :: 0 <= t < |w| ==>
              InRange(w[t], c.gridSize) && Index(w[t], c.gridSize) == Index(c.position, c.gridSize) + t
    decreases c.gridSize * c.gridSize - Index(c.position, c.gridSize)
  {
    IndexBound(c.position, c.gridSize);
    NextRank(c);
    if HasNext(c) then [c.position] + Walk(Next(c)) else [c.position]
  }

  /** From a fresh cursor the traversal meets every cell exactly once, in
      row-major order: N*N positions, so N*N - 1 calls to `Next`. */
  lemma WalkFromOriginVisitsAll(n: int)
    requires n > 0
    ensures |Walk(NewCursor(n))| == n * n
    ensures forall t :: 0 <= t < n * n ==> Walk(NewCursor(n))[t] == Position(t / n, t % n)
    ensures forall p :: InRange(p, n) ==> p in Walk(NewCursor(n))
  {
    var w := Walk(NewCursor(n));
    forall t | 0 <= t < n * n
      ensures w[t] == Position(t / n, t % n)
    {
      Arith.DivModUnique(t, n, w[t].row, w[t].column);
    }
    forall p | InRange(p, n)
      ensures p in w
    {
      IndexBound(p, n);
      var t := Index(p, n);
      IndexInjective(w[t], p, n);
    }
  }
}

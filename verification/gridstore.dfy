/** The grid store of grid/Grid.cs and grid/GridIO.cs: a board together with
    its traversal cursor, the cell accessors, the array copy, the row-major
    flattening used for JSON export and import, and the CSV row writer. */
module GridStore {
  import opened Arith
  import opened Options
  import opened Board
  import opened Positions
  import opened Text

  /** A `Grid`: its cells and its own cursor. */
  datatype Grid = Grid(cells: Matrix, cursor: Cursor)

  /** Square cells and a cursor sized to them, as every constructor leaves it. */
  predicate Valid(g: Grid)
  {
    IsSquare(g.cells) && g.cursor.gridSize == |g.cells|
  }

  function ZeroMatrix(n: nat): (m: Matrix)
    ensures |m| == n && IsSquare(m) && AllZero(m)
  {
    seq(n, i => seq(n, j => 0))
  }

  /** `new Grid(sectionSize)`: an n x n board of zeros, cursor at the origin. */
  function NewGrid(n: nat): (g: Grid)
    ensures Valid(g) && |g.cells| == n && AllZero(g.cells)
    ensures g.cursor.position == Origin()
  {
    Grid(ZeroMatrix(n), CursorAt(0, 0, n))
  }

  /** `new Grid(short[,])`: the array's cells, cursor at the origin. */
  function FromArray(a: Matrix): (g: Grid)
    requires IsSquare(a)
    ensures Valid(g) && g.cells == a && g.cursor.position == Origin()
  {
    Grid(a, CursorAt(0, 0, |a|))
  }

  /** `new Grid(Grid)`: the other grid's cells; the cursor starts over at
      the origin wherever the other grid's cursor stood. */
  function FromGrid(other: Grid): (g: Grid)
    requires Valid(other)
    ensures Valid(g) && g.cells == other.cells && g.cursor == NewCursor(|other.cells|)
  {
    FromArray(other.cells)
  }

  function GetLength(g: Grid): (n: nat)
    ensures Valid(g) ==> n == g.cursor.gridSize
  {
    |g.cells|
  }

  /** The `(short)` cast: the value modulo 2^16, read as a signed 16-bit number. */
  function ToShort(v: int): (s: int)
    ensures ShortMin <= s <= ShortMax
    ensures (s - v) % 65536 == 0
    ensures ShortMin <= v <= ShortMax ==> s == v
  {
    (v + 32768) % 65536 - 32768
  }

  /** `SetOnPosition(position, value)`: stores `(short) value` in one cell. */
  function SetOnPosition(g: Grid, p: Position, value: int): (g': Grid)
    requires Valid(g) && InRange(p, |g.cells|)
    ensures Valid(g') && g'.cursor == g.cursor
  {
    Grid(SetCell(g.cells, p.row, p.column, ToShort(value)), g.cursor)
  }

  function GetOnPosition(g: Grid, p: Position): int
    requires Valid(g) && InRange(p, |g.cells|)
  {
    g.cells[p.row][p.column]
  }

  /** `SetOnCursor(value)`: writes at the grid's own cursor. */
  function SetOnCursor(g: Grid, value: int): (g': Grid)
    requires Valid(g) && InRange(g.cursor.position, |g.cells|)
    ensures Valid(g')
  {
    SetOnPosition(g, g.cursor.position, value)
  }

  /** `SetOnCursor(cursor, value)`: writes at another cursor's position. */
  function SetOnCursorAt(g: Grid, c: Cursor, value: int): (g': Grid)
    requires Valid(g) && InRange(c.position, |g.cells|)
    ensures Valid(g')
  {
    SetOnPosition(g, c.position, value)
  }

  function GetOnCursor(g: Grid): int
    requires Valid(g) && InRange(g.cursor.position, |g.cells|)
  {
    GetOnPosition(g, g.cursor.position)
  }

  function GetOnCursorAt(g: Grid, c: Cursor): int
    requires Valid(g) && InRange(c.position, |g.cells|)
  {
    GetOnPosition(g, c.position)
  }

  /** A write is read back at its own cell (as its 16-bit value) and leaves
      every other cell, the size and the cursor as they were. A
      convenience fact: it follows from the definitions alone. */
  lemma GetAfterSet(g: Grid, p: Position, q: Position, value: int)
    requires Valid(g) && InRange(p, |g.cells|) && InRange(q, |g.cells|)
    ensures GetLength(SetOnPosition(g, p, value)) == GetLength(g)
    ensures SetOnPosition(g, p, value).cursor == g.cursor
    ensures GetOnPosition(SetOnPosition(g, p, value), q) ==
              if p == q then ToShort(value) else GetOnPosition(g, q)
    ensures ShortMin <= value <= ShortMax ==> GetOnPosition(SetOnPosition(g, p, value), p) == value
  {
  }

  /** The cursor accessors address the cell under the grid's own cursor.
      A convenience fact: it follows from the definitions alone. */
  lemma CursorAccessors(g: Grid, value: int)
    requires Valid(g) && InRange(g.cursor.position, |g.cells|)
    ensures SetOnCursor(g, value) == SetOnCursorAt(g, g.cursor, value)
    ensures GetOnCursor(SetOnCursor(g, value)) == ToShort(value)
    ensures GetOnCursor(g) == g.cells[g.cursor.position.row][g.cursor.position.column]
  {
  }

  /** `CopyArray` (and the identical `Copy` of doku/Doku.cs): a new array of
      the same dimensions holding the same cells. */
  method CopyArray(a: array2<int>) returns (b: array2<int>)
    ensures fresh(b) && b != a
    ensures b.Length0 == a.Length0 && b.Length1 == a.Length1
    ensures forall i, j :: 0 <= i < a.Length0 && 0 <= j < a.Length1 ==> b[i, j] == a[i, j]
  {
    b := new int[a.Length0, a.Length1];
    var i := 0;
    while i < a.Length0
      invariant 0 <= i <= a.Length0
      invariant forall r, c :: 0 <= r < i && 0 <= c < a.Length1 ==> b[r, c] == a[r, c]
    {
      var j := 0;
      while j < a.Length1
        invariant 0 <= j <= a.Length1
        invariant forall r, c :: 0 <= r < i && 0 <= c < a.Length1 ==> b[r, c] == a[r, c]
        invariant forall c :: 0 <= c < j ==> b[i, c] == a[i, c]
      {
        b[i, j] := a[i, j];
        j := j + 1;
      }
      i := i + 1;
    }
  }

  // ------------------------------------------------------ flat storage

  /** Cell (i, j) of an s x s board sits at i*s + j of its flat list. */
  lemma CellInFlat(i: int, j: int, s: int, len: int)
    requires 0 <= i < s && 0 <= j < s && s * s <= len
    ensures 0 <= i * s + j < len
  {
    RowEnd(i, s, s);
  }

  function FlatCell(g: Matrix, t: int): int
    requires IsSquare(g) && 0 <= t < |g| * |g|
  {
    RankSplit(t, |g|);
    g[t / |g|][t % |g|]
  }

  /** The flatten loop of `ExportJsonGrids`: the rows one after another. */
  function Flatten(g: Matrix): (f: seq<int>)
    requires IsSquare(g)
    ensures |f| == |g| * |g|
  {
    var n := |g|;
    seq(n * n, t requires 0 <= t < n * n => FlatCell(g, t))
  }

  /** Cell (i, j) of the board is element i*N + j of its flat list. */
  lemma FlattenCell(g: Matrix, i: int, j: int)
    requires IsSquare(g) && 0 <= i < |g| && 0 <= j < |g|
    ensures 0 <= i * |g| + j < |Flatten(g)| && Flatten(g)[i * |g| + j] == g[i][j]
  {
    var n := |g|;
    CellInFlat(i, j, n, n * n);
    DivModUnique(i * n + j, n, i, j);
  }

  function FlatRow(f: seq<int>, s: nat, i: nat): (r: seq<int>)
    requires i < s && s * s <= |f|
    ensures |r| == s
  {
    CellInFlat(i, s - 1, s, |f|);
    f[i * s..i * s + s]
  }

  /** The unflatten loops of `ImportJsonGrid(s)`: side floor(sqrt |f|), row i
      read from i*side on; elements past side*side are ignored. */
  function Unflatten(f: seq<int>): (g: Matrix)
    ensures IsSquare(g) && |g| == Isqrt(|f|)
    ensures |g| * |g| <= |f| < (|g| + 1) * (|g| + 1)
  {
    var s := Isqrt(|f|);
    seq(s, i requires 0 <= i < s => FlatRow(f, s, i))
  }

  /** Cell (i, j) of a read board is element i*side + j of the list. */
  lemma UnflattenCell(f: seq<int>, i: int, j: int)
    requires 0 <= i < |Unflatten(f)| && 0 <= j < |Unflatten(f)|
    ensures 0 <= i * |Unflatten(f)| + j < |f|
    ensures Unflatten(f)[i][j] == f[i * |Unflatten(f)| + j]
  {
    var s := Isqrt(|f|);
    CellInFlat(i, j, s, |f|);
    CellInFlat(i, s - 1, s, |f|);
    assert Unflatten(f)[i] == f[i * s..i * s + s];
  }

  /** Reading back an exported board gives the board. */
  lemma UnflattenFlatten(g: Matrix)
    requires IsSquare(g)
    ensures Unflatten(Flatten(g)) == g
  {
    var n := |g|;
    IsqrtOfSquare(n);
    var u := Unflatten(Flatten(g));
    forall i | 0 <= i < n
      ensures u[i] == g[i]
    {
      forall j | 0 <= j < n
        ensures u[i][j] == g[i][j]
      {
        UnflattenCell(Flatten(g), i, j);
        FlattenCell(g, i, j);
      }
    }
  }

  /** Exporting an imported board gives the list cut to side*side elements;
      on a perfect-square length that is the whole list. */
  lemma FlattenUnflatten(f: seq<int>)
    ensures Flatten(Unflatten(f)) == f[..Isqrt(|f|) * Isqrt(|f|)]
    ensures (exists k: nat :: k * k == |f|) ==> Flatten(Unflatten(f)) == f
  {
    var u := Unflatten(f);
    var s := |u|;
    var flat := Flatten(u);
    forall t | 0 <= t < s * s
      ensures flat[t] == f[t]
    {
      RankSplit(t, s);
      var i, j := t / s, t % s;
      FlattenCell(u, i, j);
      UnflattenCell(f, i, j);
    }
    if exists k: nat :: k * k == |f| {
      var k: nat :| k * k == |f|;
      IsqrtOfSquare(k);
    }
  }

  /** `ImportJsonGrids`: every flat list becomes a grid with a fresh cursor. */
  function ImportGrids(fs: seq<seq<int>>): (gs: seq<Grid>)
    ensures |gs| == |fs|
    ensures forall i :: 0 <= i < |fs| ==> Valid(gs[i]) && gs[i] == FromArray(Unflatten(fs[i]))
  {
    if |fs| == 0 then [] else [FromArray(Unflatten(fs[0]))] + ImportGrids(fs[1..])
  }

  /** `ExportJsonGrids`: every grid flattened, in list order. */
  function ExportGrids(gs: seq<Grid>): (fs: seq<seq<int>>)
    requires forall i :: 0 <= i < |gs| ==> IsSquare(gs[i].cells)
    ensures |fs| == |gs|
    ensures forall i :: 0 <= i < |gs| ==> fs[i] == Flatten(gs[i].cells)
  {
    if |gs| == 0 then [] else [Flatten(gs[0].cells)] + ExportGrids(gs[1..])
  }

  /** Import after export gives every grid's cells back, cursors at the origin. */
  lemma ImportExport(gs: seq<Grid>)
    requires forall i :: 0 <= i < |gs| ==> IsSquare(gs[i].cells)
    ensures |ImportGrids(ExportGrids(gs))| == |gs|
    ensures forall i :: 0 <= i < |gs| ==> ImportGrids(ExportGrids(gs))[i] == FromArray(gs[i].cells)
  {
    forall i | 0 <= i < |gs|
      ensures Unflatten(Flatten(gs[i].cells)) == gs[i].cells
    {
      UnflattenFlatten(gs[i].cells);
    }
  }

  // ------------------------------------------------------------- CSV

  /** One CSV field: a space for an empty cell, the decimal value otherwise. */
  function CsvField(v: int): (s: string)
    ensures ';' !in s && '\n' !in s && |s| >= 1
  {
    if v == 0 then " " else Decimal(v)
  }

  /** The inner loop of `ExportCsvGrid`: every cell's field followed by ';'. */
  function RenderRow(row: seq<int>): (s: string)
    ensures '\n' !in s && |s| >= 2 * |row|
  {
    if |row| == 0 then "" else CsvField(row[0]) + ";" + RenderRow(row[1..])
  }

  function CsvFields(row: seq<int>): (fs: seq<string>)
    ensures |fs| == |row| && forall k :: 0 <= k < |row| ==> fs[k] == CsvField(row[k])
  {
    if |row| == 0 then [] else [CsvField(row[0])] + CsvFields(row[1..])
  }

  /** All rows joined by the platform's line separator. */
  function RenderCsv(g: Matrix, newline: string): (s: string)
    ensures newline == "\n" && |g| > 0 ==> StdSplit(s, '\n') == RenderRows(g)
  {
    if newline == "\n" && |g| > 0 then
      StdSplitJoin(RenderRows(g), '\n');
      Join(RenderRows(g), newline)
    else Join(RenderRows(g), newline)
  }

  function RenderRows(g: Matrix): (lines: seq<string>)
    ensures |lines| == |g| && forall i :: 0 <= i < |g| ==> lines[i] == RenderRow(g[i])
  {
    if |g| == 0 then [] else [RenderRow(g[0])] + RenderRows(g[1..])
  }

  /** A written field read back: a space is 0, otherwise a signed decimal. */
  function ParseField(s: string): Option<int>
  {
    if s == " " then Some(0) else ParseInt(s)
  }

  function ParseFields(fs: seq<string>): (r: Option<seq<int>>)
    ensures r.Some? ==> |r.value| == |fs|
  {
    if |fs| == 0 then Some([])
    else match (ParseField(fs[0]), ParseFields(fs[1..]))
      case (Some(v), Some(rest)) => Some([v] + rest)
      case _ => None
  }

  /** A CSV line read back field by field. */
  function ParseRow(line: string): Option<seq<int>>
  {
    ParseFields(SplitRef(line, ';'))
  }

  lemma {:induction false} RenderRowTerminated(row: seq<int>)
    ensures RenderRow(row) == Terminated(CsvFields(row), ';')
  {
    if |row| > 0 {
      RenderRowTerminated(row[1..]);
      assert CsvFields(row)[1..] == CsvFields(row[1..]);
    }
  }

  lemma {:induction false} ParseFieldsOfRow(row: seq<int>)
    ensures ParseFields(CsvFields(row)) == Some(row)
  {
    if |row| > 0 {
      ParseFieldsOfRow(row[1..]);
      assert CsvFields(row)[1..] == CsvFields(row[1..]);
      if row[0] != 0 {
        ParseDecimal(row[0]);
        assert Decimal(row[0]) != " " by {
          if row[0] > 0 {
            assert IsDigit(Decimal(row[0])[0]);
          }
        }
      }
      assert [row[0]] + row[1..] == row;
    }
  }

  /** A written row has exactly one field per cell, and reading it back
      gives the row. */
  lemma RenderRowRoundTrip(row: seq<int>)
    ensures |SplitRef(RenderRow(row), ';')| == |row|
    ensures ParseRow(RenderRow(row)) == Some(row)
  {
    RenderRowTerminated(row);
    SplitTerminated(CsvFields(row), ';');
    ParseFieldsOfRow(row);
  }
}

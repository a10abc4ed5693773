/** `Loader.GetGrid` of grid/GridLoader.cs: a text board of L lines, each
    holding at least L digit characters, read as an L x L board. */
module GridLoader {
  import opened Options
  import opened Board
  import opened Text

  /** Every line reaches column L-1 and its first L characters are digits:
      exactly when no `int.Parse` or index in the loops throws. */
  predicate Readable(lines: seq<string>)
  {
    forall i :: 0 <= i < |lines| ==>
      |lines[i]| >= |lines| && forall j :: 0 <= j < |lines| ==> IsDigit(lines[i][j])
  }

  /** The board the loops build, when they complete. */
  function GetGrid(lines: seq<string>): (r: Option<Matrix>)
    ensures r.Some? <==> Readable(lines)
    ensures r.Some? ==> IsSquare(r.value) && |r.value| == |lines|
    ensures r.Some? ==> forall i, j :: 0 <= i < |lines| && 0 <= j < |lines| ==>
              0 <= r.value[i][j] <= 9 && r.value[i][j] == DigitValue(lines[i][j])
  {
    if Readable(lines) then
      var n := |lines|;
      Some(seq(n, i requires 0 <= i < n => seq(n, j requires 0 <= j < n => DigitValue(lines[i][j]))))
    else None
  }

  /** The text form of a board of single digits: one line per row. */
  function DigitLines(g: Matrix): (lines: seq<string>)
    requires forall i, j :: 0 <= i < |g| && 0 <= j < |g[i]| ==> 0 <= g[i][j] <= 9
    ensures |lines| == |g|
    ensures forall i :: 0 <= i < |g| ==> |lines[i]| == |g[i]|
    ensures forall i, j :: 0 <= i < |g| && 0 <= j < |g[i]| ==> lines[i][j] == DigitChar(g[i][j])
  {
    seq(|g|, i requires 0 <= i < |g| => seq(|g[i]|, j requires 0 <= j < |g[i]| => DigitChar(g[i][j])))
  }

  /** A square board of digits written line by line reads back as itself. */
  lemma GetGridDigitLines(g: Matrix)
    requires IsSquare(g)
    requires forall i, j :: 0 <= i < |g| && 0 <= j < |g| ==> 0 <= g[i][j] <= 9
    ensures GetGrid(DigitLines(g)) == Some(g)
  {
    var lines := DigitLines(g);
    var r := GetGrid(lines);
    assert r.Some?;
    forall i | 0 <= i < |g|
      ensures r.value[i] == g[i]
    {
      forall j | 0 <= j < |g|
        ensures r.value[i][j] == g[i][j]
      {
        assert lines[i][j] == DigitChar(g[i][j]);
      }
    }
    assert r.value == g;
  }

  /** A line shorter than the line count, or a non-digit in its first L
      characters, makes the read fail. A convenience fact: it follows from
      the definitions alone. */
  lemma GetGridRejects(lines: seq<string>, i: int, j: int)
    requires 0 <= i < |lines| && 0 <= j < |lines|
    requires |lines[i]| <= j || !IsDigit(lines[i][j])
    ensures GetGrid(lines) == None
  {
  }
}

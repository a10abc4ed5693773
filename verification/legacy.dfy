/** What the two earlier iterations of the program, Main.cs and V2.cs, add
    to the current engine: an integer fill percentage, the cursor's bounds
    tests, a backtracker that stops at a fill target and does reach the
    bottom-right cell, the candidate-pass solvers with a fill target, and
    V2's hand-written string splitter with the text loader built on it.
    Everything they share with the current engine (candidate lists, the
    placement scans, the solved test) is the same model as there. */
module Legacy {
  import opened Arith
  import opened Options
  import opened Board
  import opened Positions
  import opened Doku
  import opened Text
  import GridStore
  import BackTrack
  import BruteForce
  import Loops

  // ------------------------------------------------------ fill percentage

  /** `GetFillPercentage()`: the share of filled cells in percent, rounded
      down. An empty board counts as 0. */
  function FillPercentage(g: Matrix): (r: int)
    requires IsSquare(g)
    ensures 0 <= r <= 100
    ensures |g| > 0 ==> r * (|g| * |g|) <= FilledCount(g) * 100 < (r + 1) * (|g| * |g|)
  {
    CountsAddUp(g);
    if |g| == 0 then 0 else PercentOf(FilledCount(g), |g| * |g|)
  }

  /** floor(count * 100 / total) for 0 <= count <= total. */
  function PercentOf(count: nat, total: nat): (r: int)
    requires 0 < total && count <= total
    ensures 0 <= r <= 100 && r * total <= count * 100 < (r + 1) * total
  {
    DivisionBounds(count * 100, total);
    count * 100 / total
  }

  /** The quotient of x by total sits between x's two neighbouring multiples
      of total; for x <= 100 * total it is at most 100. */
  lemma DivisionBounds(x: nat, total: nat)
    requires 0 < total && x <= 100 * total
    ensures var r := x / total; 0 <= r <= 100 && r * total <= x < (r + 1) * total
  {
    var r := x / total;
    assert r * total <= x < r * total + total;
    MulSucc(r, total);
    if r > 100 {
      MulLe(101, r, total);
    }
  }

  /** More filled cells never give a lower percentage. */
  lemma PercentMonotone(a: nat, b: nat, total: nat)
    requires 0 < total && a <= b <= total
    ensures PercentOf(a, total) <= PercentOf(b, total)
  {
    var x, y := PercentOf(a, total), PercentOf(b, total);
    if x > y {
      MulLe(y + 1, x, total);
    }
  }

  /** An empty board is 0 % filled and a full one 100 %; filling cells never
      lowers the percentage. */
  lemma FillPercentageFacts(g: Matrix, g': Matrix)
    requires IsSquare(g)
    ensures AllZero(g) ==> FillPercentage(g) == 0
    ensures NoZeros(g) && |g| > 0 ==> FillPercentage(g) == 100
    ensures IsSquare(g') && |g'| == |g| && Refines(g, g') ==> FillPercentage(g) <= FillPercentage(g')
  {
    var n := |g|;
    if AllZero(g) {
      EmptyCount(g);
    }
    if NoZeros(g) && n > 0 {
      FullCount(g);
      var r := FillPercentage(g);
      assert r * (n * n) <= (n * n) * 100 < (r + 1) * (n * n);
      if r < 100 {
        MulLe(r + 1, 100, n * n);
      }
    }
    if IsSquare(g') && |g'| == n && Refines(g, g') && n > 0 {
      RefinesCount(g, g');
      CountsAddUp(g');
      PercentMonotone(FilledCount(g), FilledCount(g'), n * n);
    }
  }

  /** Filled cells in the first j entries of a row, one more entry at a time. */
  lemma {:induction false} NonZerosPrefix(s: seq<int>, j: int)
    requires 0 <= j < |s|
    ensures NonZeros(s[..j + 1]) == NonZeros(s[..j]) + if s[j] != 0 then 1 else 0
  {
    if j > 0 {
      NonZerosPrefix(s[1..], j - 1);
      assert s[..j + 1][1..] == s[1..][..j];
      assert s[..j][1..] == s[1..][..j - 1];
    }
  }

  /** The counting loops of `GetFillPercentage` (Main.cs and V2.cs alike). */
  method GetFillPercentage(g: Matrix) returns (percentage: int)
    requires IsSquare(g)
    ensures percentage == FillPercentage(g)
  {
    var filledCount := 0;
    for i := 0 to |g|
      invariant filledCount == FilledBelow(g, i)
    {
      for j := 0 to |g|
        invariant filledCount == FilledBelow(g, i) + NonZeros(g[i][..j])
      {
        NonZerosPrefix(g[i], j);
        if g[i][j] != 0 {
          filledCount := filledCount + 1;
        }
      }
      assert g[i][..|g|] == g[i];
    }
    CountsAddUp(g);
    if |g| == 0 {
      percentage := 0;
    } else {
      percentage := PercentOf(filledCount, |g| * |g|);
    }
  }

  // --------------------------------------------------------------- cursor

  /** `HasPrevious()`: the cursor is not at the origin. */
  function HasPrevious(c: Cursor): bool
  {
    c.position.row != 0 || c.position.column != 0
  }

  /** `IsOutOfBounds()`: the row or the column is outside [0, gridSize). */
  function IsOutOfBounds(c: Cursor): (b: bool)
    ensures b <==> !InRange(c.position, c.gridSize)
  {
    c.position.row < 0 || c.position.row >= c.gridSize ||
    c.position.column < 0 || c.position.column >= c.gridSize
  }

  /** From an in-bounds cell, `Next` leaves the board exactly from the
      bottom-right cell, and `Previous` exactly from the origin: `HasNext`
      and `HasPrevious` say whether the step stays on the board. A
      convenience fact: it follows from the definitions alone. */
  lemma StepsLeaveBoard(c: Cursor)
    requires InRange(c.position, c.gridSize)
    ensures IsOutOfBounds(Next(c)) <==> c.position == Last(c.gridSize)
    ensures IsOutOfBounds(Next(c)) <==> !HasNext(c)
    ensures IsOutOfBounds(Previous(c)) <==> c.position == Origin()
    ensures IsOutOfBounds(Previous(c)) <==> !HasPrevious(c)
  {
  }

  // --------------------------------------------------------------- V2 text

  /** `SubString(input, start, end)`: the characters start..end, both
      included, one at a time; nothing when end < start. */
  method SubString(input: string, start: int, end: int) returns (output: string)
    requires start <= end ==> 0 <= start && end < |input|
    ensures start <= end ==> output == input[start..end + 1]
    ensures end < start ==> output == ""
  {
    output := "";
    var i := start;
    while i <= end
      invariant start <= end ==> start <= i <= end + 1 && output == input[start..i]
      invariant end < start ==> output == ""
      decreases end + 1 - i
    {
      output := output + [input[i]];
      i := i + 1;
    }
  }

  /** `SplitString(input, separator)`: a separator closes the field begun at
      `startIndex`; the last character closes the final field unless it is
      a separator itself. */
  method SplitString(input: string, separator: char) returns (elements: seq<string>)
    ensures elements == SplitRef(input, separator)
  {
    elements := [];
    var startIndex := 0;
    SplitStart(input, separator);
    for i := 0 to |input|
      invariant SplitLoop(input, separator, elements, startIndex, i)
    {
      if input[i] == separator {
        var field := SubString(input, startIndex, i - 1);
        assert field == input[startIndex..i];
        SplitStepAtSeparator(input, separator, elements, startIndex, i);
        elements := elements + [field];
        startIndex := i + 1;
      } else if i == |input| - 1 {
        var field := SubString(input, startIndex, i);
        assert field == input[startIndex..|input|];
        SplitStepFinal(input, separator, elements, startIndex);
        elements := elements + [field];
      } else {
        SplitStepInside(input, separator, elements, startIndex, i);
      }
    }
    SplitDone(input, separator, elements, startIndex);
  }

  /** No separator in s[a..i]. */
  predicate Clean(s: string, sep: char, a: int, i: int)
    requires 0 <= a <= i <= |s|
  {
    sep !in s[a..i]
  }

  /** The elements split off so far, followed by the split of the rest of
      the text from a, give the split of the whole text. */
  ghost predicate SplitSoFar(s: string, sep: char, elements: seq<string>, a: int)
    requires 0 <= a <= |s|
  {
    elements + SplitRef(s[a..], sep) == SplitRef(s, sep)
  }

  /** The state of the `SplitString` loop before index i: the field under
      way starts at a and holds no separator yet; once the last character
      is handled every field is split off. */
  ghost predicate SplitLoop(s: string, sep: char, elements: seq<string>, a: int, i: int)
  {
    0 <= a <= i <= |s| && Clean(s, sep, a, i) &&
    SplitSoFar(s, sep, elements, if i < |s| then a else |s|)
  }

  /** Before the loop nothing is split off yet. */
  lemma SplitStart(s: string, sep: char)
    ensures SplitLoop(s, sep, [], 0, 0)
  {
    assert s[0..] == s;
  }

  /** After the loop everything is. */
  lemma SplitDone(s: string, sep: char, elements: seq<string>, a: int)
    requires SplitLoop(s, sep, elements, a, |s|)
    ensures elements == SplitRef(s, sep)
  {
    assert s[|s|..] == [];
  }

  /** The loop's step at a separator: the stretch since `startIndex` becomes
      the next element, and the split goes on after the separator. */
  lemma SplitStepAtSeparator(s: string, sep: char, elements: seq<string>, a: int, i: int)
    requires SplitLoop(s, sep, elements, a, i) && i < |s| && s[i] == sep
    ensures SplitLoop(s, sep, elements + [s[a..i]], i + 1, i + 1)
  {
    assert Clean(s, sep, a, i) && SplitSoFar(s, sep, elements, a);
    SplitAtSeparator(s, a, i, sep);
    var field, rest := s[a..i], SplitRef(s[i + 1..], sep);
    assert (elements + [field]) + rest == elements + ([field] + rest);
    assert s[i + 1..i + 1] == [];
  }

  /** The loop's step at a last character that is not a separator: the
      stretch since `startIndex` is the final element. */
  lemma SplitStepFinal(s: string, sep: char, elements: seq<string>, a: int)
    requires |s| > 0 && SplitLoop(s, sep, elements, a, |s| - 1) && s[|s| - 1] != sep
    ensures SplitLoop(s, sep, elements + [s[a..|s|]], a, |s|)
  {
    SplitFinalField(s, a, sep);
    assert s[a..|s|] == s[a..];
    assert s[|s|..] == [];
    assert s[a..|s|] == s[a..|s| - 1] + [s[|s| - 1]];
  }

  /** The loop's step at any other character before the last one. */
  lemma SplitStepInside(s: string, sep: char, elements: seq<string>, a: int, i: int)
    requires SplitLoop(s, sep, elements, a, i) && i < |s| - 1 && s[i] != sep
    ensures SplitLoop(s, sep, elements, a, i + 1)
  {
    assert s[a..i + 1] == s[a..i] + [s[i]];
  }

  /** A separator at i after a separator-free stretch from a: the split
      from a is that stretch, then the split after the separator. */
  lemma SplitAtSeparator(s: string, a: int, i: int, sep: char)
    requires 0 <= a <= i < |s| && s[i] == sep && Clean(s, sep, a, i)
    ensures SplitRef(s[a..], sep) == [s[a..i]] + SplitRef(s[i + 1..], sep)
  {
    assert s[a..] == s[a..i] + [sep] + s[i + 1..];
    SplitCons(s[a..i], sep, s[i + 1..]);
  }

  /** A non-empty separator-free tail is one final field. */
  lemma SplitFinalField(s: string, a: int, sep: char)
    requires 0 <= a < |s| && s[|s| - 1] != sep && sep !in s[a..|s| - 1]
    ensures SplitRef(s[a..], sep) == [s[a..]]
  {
    assert s[a..] == s[a..|s| - 1] + [s[|s| - 1]];
    SplitSingle(s[a..], sep);
  }

  /** The number of separators in a text. */
  function Occurrences(s: string, sep: char): nat
  {
    if |s| == 0 then 0 else (if s[0] == sep then 1 else 0) + Occurrences(s[1..], sep)
  }

  /** One field per separator, plus one for a final field that does not end
      in a separator; so a trailing separator opens no empty field, while a
      leading one or two in a row do. */
  lemma {:induction false} SplitCount(s: string, sep: char)
    ensures |SplitRef(s, sep)| == Occurrences(s, sep) + if |s| > 0 && s[|s| - 1] != sep then 1 else 0
    decreases |s|
  {
    if |s| > 0 {
      var i := FindChar(s, sep);
      OccurrencesCut(s, i, sep);
      if i < |s| {
        SplitCount(s[i + 1..], sep);
        if |s[i + 1..]| > 0 {
          assert s[i + 1..][|s[i + 1..]| - 1] == s[|s| - 1];
        }
      }
    }
  }

  /** Splitting the count at the first separator (or at the end). */
  lemma {:induction false} OccurrencesCut(s: string, i: nat, sep: char)
    requires i <= |s| && sep !in s[..i] && (i < |s| ==> s[i] == sep)
    ensures Occurrences(s, sep) == if i < |s| then 1 + Occurrences(s[i + 1..], sep) else 0
    decreases i
  {
    if i > 0 {
      assert s[0] in s[..i];
      assert s[1..][..i - 1] == s[..i][1..];
      OccurrencesCut(s[1..], i - 1, sep);
      if i < |s| {
        assert s[1..][i..] == s[i + 1..];
      }
    } else if |s| > 0 {
      assert s[1..] == s[i + 1..];
    }
  }

  // ------------------------------------------------------ fill arithmetic

  /** One blank on an otherwise full board: floor((N² - 1) * 100 / N²),
      98 for N = 9. */
  lemma OneBlankPercentage(g: Matrix)
    requires IsSquare(g) && ZeroCount(g) == 1
    ensures FillPercentage(g) == (|g| * |g| - 1) * 100 / (|g| * |g|)
    ensures |g| == 9 ==> FillPercentage(g) == 98
  {
    CountsAddUp(g);
    var n := |g|;
    var r := FillPercentage(g);
    DivModUnique((n * n - 1) * 100, n * n, r, (n * n - 1) * 100 - r * (n * n));
  }

  // ----------------------------------------------------- candidate passes

  /** The early `return` of `SmartBruteforce`: the fill has reached the target. */
  predicate AtTarget(h: Matrix, target: int)
  {
    IsSquare(h) && FillPercentage(h) >= target
  }

  /** `SmartBruteforce.Solve(grid, fillPercentage)` on its copy: hand the
      board back once the fill reaches the target, else run one pass of
      unique candidates, until `IsSolved`. The loop has no bound of its own:
      at most `fuel` rounds, None when it is still running after them. */
  function SmartRun(g: Matrix, target: int, fuel: nat): (r: Option<Matrix>)
    ensures r.Some? ==> AtTarget(r.value, target) || (IsWellFormed(r.value) && IsSolved(r.value))
    ensures r.None? ==> forall t :: 0 <= t < fuel ==> !AtTarget(Loops.Iterate(BruteForce.Step, g, t), target)
  {
    Loops.DoWhileExit(BruteForce.Step, BruteForce.Accepted, h => AtTarget(h, target), g, fuel)
  }

  /** What the loop hands back keeps every given, is sound when the givens
      are, and has reached the target or is solved; a board already at the
      target comes back untouched. */
  lemma SmartRunFacts(g: Matrix, target: int, fuel: nat)
    requires IsWellFormed(g)
    ensures SmartRun(g, target, fuel).Some? ==>
              var r := SmartRun(g, target, fuel).value;
              IsWellFormed(r) && |r| == |g| && Refines(g, r) && (Sound(g) ==> Sound(r)) &&
              (FillPercentage(r) >= target || IsSolved(r))
    ensures fuel > 0 && FillPercentage(g) >= target ==> SmartRun(g, target, fuel) == Some(g)
  {
    var inv := h => BruteForce.Reached(g, h);
    forall h | inv(h)
      ensures inv(BruteForce.Step(h))
    {
      BruteForce.StepKeepsReached(g, h);
    }
    Loops.DoWhileExitKeeps(BruteForce.Step, BruteForce.Accepted, h => AtTarget(h, target), inv, g, fuel);
  }

  /** Only unique candidates are written, so every value the loop writes is
      the one any solution of the givens has there. */
  lemma SmartRunWritesForced(g: Matrix, target: int, fuel: nat, s: Matrix)
    requires IsWellFormed(g) && IsSolution(s) && Refines(g, s)
    ensures var r := SmartRun(g, target, fuel);
            r.Some? ==> IsSquare(r.value) && Refines(r.value, s)
  {
    var inv := h => IsWellFormed(h) && Refines(h, s);
    forall h | inv(h)
      ensures inv(BruteForce.Step(h))
    {
      BruteForce.PassFacts(h, s);
    }
    Loops.DoWhileExitKeeps(BruteForce.Step, BruteForce.Accepted, h => AtTarget(h, target), inv, g, fuel);
  }

  /** Below the target, a board no pass changes and that is not solved keeps
      the loop running for ever. */
  lemma SmartRunStuck(g: Matrix, target: int, fuel: nat)
    requires IsWellFormed(g) && FillPercentage(g) < target
    requires BruteForce.Pass(g) == g && !IsSolved(g)
    ensures SmartRun(g, target, fuel) == None
  {
    Loops.DoWhileExitStuck(BruteForce.Step, BruteForce.Accepted, h => AtTarget(h, target), g, fuel);
  }

  /** The `do` body of V2's `SolveSmartBruteforce`: one pass, but only while
      the fill is at most the target; above it the body does nothing. */
  function V2Step(h: Matrix, target: int): (r: Matrix)
    ensures IsWellFormed(h) ==> IsWellFormed(r) && |r| == |h| && Refines(h, r)
  {
    if IsWellFormed(h) && FillPercentage(h) <= target then BruteForce.PassFacts(h, h); BruteForce.Pass(h) else h
  }

  /** `do { ... } while (!IsSolved(grid))` in place, at most `fuel` rounds. */
  function V2Run(g: Matrix, target: int, fuel: nat): (r: Option<Matrix>)
    ensures r.Some? ==> IsWellFormed(r.value) && IsSolved(r.value)
  {
    Loops.DoWhile(h => V2Step(h, target), BruteForce.Accepted, g, fuel)
  }

  /** What V2's loop hands back is solved and keeps every given; from sound
      givens it is a solution. */
  lemma V2RunFacts(g: Matrix, target: int, fuel: nat)
    requires IsWellFormed(g)
    ensures V2Run(g, target, fuel).Some? ==>
              var r := V2Run(g, target, fuel).value;
              IsWellFormed(r) && |r| == |g| && IsSolved(r) && Refines(g, r) &&
              (Sound(g) ==> IsSolution(r))
  {
    var step := h => V2Step(h, target);
    var inv := h => BruteForce.Reached(g, h);
    forall h | inv(h)
      ensures inv(step(h))
    {
      BruteForce.StepKeepsReached(g, h);
    }
    Loops.DoWhileKeeps(step, BruteForce.Accepted, inv, g, fuel);
    if V2Run(g, target, fuel).Some? {
      SolvedIsFilled(V2Run(g, target, fuel).value);
    }
  }

  /** Once the fill is above the target the body does nothing, so an
      unsolved board keeps the loop running for ever. */
  lemma V2RunStuckAboveTarget(g: Matrix, target: int, fuel: nat)
    requires IsWellFormed(g) && FillPercentage(g) > target && !IsSolved(g)
    ensures V2Run(g, target, fuel) == None
  {
    Loops.DoWhileStuck(h => V2Step(h, target), BruteForce.Accepted, g, fuel);
  }

  // -------------------------------------------------------------- loaders

  /** `short.Parse` over every field in order; the first that does not parse
      throws, which is None here. */
  function ParseShorts(fields: seq<string>): (r: Option<seq<int>>)
    ensures r.Some? ==> |r.value| == |fields| &&
                        forall k :: 0 <= k < |fields| ==> ParseShort(fields[k]) == Some(r.value[k])
    ensures r.None? ==> exists k :: 0 <= k < |fields| && ParseShort(fields[k]).None?
  {
    if |fields| == 0 then Some([])
    else match (ParseShort(fields[0]), ParseShorts(fields[1..]))
      case (Some(v), Some(rest)) => Some([v] + rest)
      case (None, _) => None
      case (_, None) =>
        var k :| 0 <= k < |fields| - 1 && ParseShort(fields[1..][k]).None?;
        assert ParseShort(fields[k + 1]).None?;
        None
  }

  /** The parse loop and the unflatten loops both loaders share: a parse
      per field, then the values laid out row by row in the largest square
      they fill. */
  /** Every field is a well-formed 16-bit number. */
  predicate AllParse(fields: seq<string>)
  {
    forall k :: 0 <= k < |fields| ==> ParseShort(fields[k]).Some?
  }

  function LoadFields(fields: seq<string>): (r: Option<Matrix>)
    ensures r.Some? ==> IsSquare(r.value) && |r.value| == Isqrt(|fields|)
    ensures r.Some? <==> AllParse(fields)
  {
    match ParseShorts(fields)
    case None => None
    case Some(flat) => Some(GridStore.Unflatten(flat))
  }

  /** V2's `LoadTxt` once the file is read: the hand-written splitter on
      spaces, then the fields loaded. */
  function LoadTxtV2(text: string): (r: Option<Matrix>)
    ensures r.Some? ==> IsSquare(r.value)
    ensures r.Some? <==> AllParse(SplitRef(text, ' '))
  {
    LoadFields(SplitRef(text, ' '))
  }

  /** Main.cs's `LoadTxt`: only the first line of the file, cut by
      `String.Split`; a file with no line throws. */
  function LoadTxtMain(lines: seq<string>): (r: Option<Matrix>)
    ensures |lines| == 0 ==> r.None?
    ensures r.Some? ==> IsSquare(r.value)
    ensures |lines| > 0 ==> (r.Some? <==> AllParse(StdSplit(lines[0], ' ')))
  {
    if |lines| == 0 then None else LoadFields(StdSplit(lines[0], ' '))
  }

  /** The loaded grid is the square of side floor(sqrt(count)) whose cell
      (i, j) is the value of field i * side + j; loading fails exactly when
      a field does not parse. */
  lemma LoadFieldsFacts(fields: seq<string>)
    ensures LoadFields(fields).None? <==> exists k :: 0 <= k < |fields| && ParseShort(fields[k]).None?
    ensures LoadFields(fields).Some? ==>
              var g := LoadFields(fields).value;
              IsSquare(g) && |g| == Isqrt(|fields|) &&
              forall i, j :: 0 <= i < |g| && 0 <= j < |g| ==> LoadedCell(fields, g, i, j)
  {
    var r := ParseShorts(fields);
    if r.Some? {
      var g := GridStore.Unflatten(r.value);
      forall i, j | 0 <= i < |g| && 0 <= j < |g|
        ensures LoadedCell(fields, g, i, j)
      {
        UnflattenParsed(fields, r.value, i, j);
      }
    }
  }

  /** Cell (i, j) of g holds the value of field i * |g| + j. */
  ghost predicate LoadedCell(fields: seq<string>, g: Matrix, i: int, j: int)
    requires 0 <= i < |g| && 0 <= j < |g[i]|
  {
    0 <= i * |g| + j < |fields| && ParseShort(fields[i * |g| + j]) == Some(g[i][j])
  }

  lemma UnflattenParsed(fields: seq<string>, flat: seq<int>, i: int, j: int)
    requires ParseShorts(fields) == Some(flat)
    requires 0 <= i < |GridStore.Unflatten(flat)| && 0 <= j < |GridStore.Unflatten(flat)|
    ensures LoadedCell(fields, GridStore.Unflatten(flat), i, j)
  {
    GridStore.UnflattenCell(flat, i, j);
  }

  /** The cells of a grid written out as decimals. */
  function DecimalFields(vs: seq<int>): (fs: seq<string>)
    ensures |fs| == |vs| && forall k :: 0 <= k < |vs| ==> fs[k] == Decimal(vs[k])
  {
    if |vs| == 0 then [] else [Decimal(vs[0])] + DecimalFields(vs[1..])
  }

  /** A decimal has no space in it. A convenience fact: it follows from
      `Decimal`'s contract alone. */
  lemma DecimalHasNoSpace(v: int)
    ensures ' ' !in Decimal(v)
  {
  }

  /** Every 16-bit value written as a decimal parses back. */
  lemma {:induction false} ParseShortsDecimals(vs: seq<int>)
    requires forall k :: 0 <= k < |vs| ==> ShortMin <= vs[k] <= ShortMax
    ensures ParseShorts(DecimalFields(vs)) == Some(vs)
  {
    if |vs| > 0 {
      ParseShortDecimal(vs[0]);
      ParseShortsDecimals(vs[1..]);
      assert DecimalFields(vs)[1..] == DecimalFields(vs[1..]);
      assert [vs[0]] + vs[1..] == vs;
    }
  }

  /** The space-separated text of a grid's cells, row after row. */
  function GridText(g: Matrix): string
    requires IsSquare(g)
  {
    Join(DecimalFields(GridStore.Flatten(g)), " ")
  }

  /** The written fields of a grid of 16-bit values: one per cell, none
      with a space, each parsing back to its cell. */
  lemma GridTextFields(g: Matrix)
    requires IsSquare(g) && |g| > 0
    requires forall i, j :: 0 <= i < |g| && 0 <= j < |g| ==> ShortMin <= g[i][j] <= ShortMax
    ensures var fields := DecimalFields(GridStore.Flatten(g));
            |fields| > 0 && (forall k :: 0 <= k < |fields| ==> ' ' !in fields[k]) &&
            ParseShorts(fields) == Some(GridStore.Flatten(g))
  {
    var flat := GridStore.Flatten(g);
    var fields := DecimalFields(flat);
    forall k | 0 <= k < |flat|
      ensures ShortMin <= flat[k] <= ShortMax
    {
      RankSplit(k, |g|);
    }
    forall k | 0 <= k < |fields|
      ensures ' ' !in fields[k]
    {
      DecimalHasNoSpace(flat[k]);
    }
    MulLe(1, |g|, |g|);
    ParseShortsDecimals(flat);
  }

  /** A non-empty grid of 16-bit values written as one space-separated line
      reads back as itself with either loader. */
  lemma LoadTxtRoundTrip(g: Matrix, rest: seq<string>)
    requires IsSquare(g) && |g| > 0
    requires forall i, j :: 0 <= i < |g| && 0 <= j < |g| ==> ShortMin <= g[i][j] <= ShortMax
    ensures LoadTxtV2(GridText(g)) == Some(g)
    ensures LoadTxtMain([GridText(g)] + rest) == Some(g)
  {
    var fields := DecimalFields(GridStore.Flatten(g));
    GridTextFields(g);
    SplitJoin(fields, ' ');
    StdSplitJoin(fields, ' ');
    GridStore.UnflattenFlatten(g);
  }
}

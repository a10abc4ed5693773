/** The puzzle generator of doku/generator/Generator.cs. A board of side
    N = k*k is seeded with a random permutation of 1..N in each of the k
    diagonal boxes (boxes on the diagonal share no row, column or box), the
    backtracking solver completes it, and the carve step blanks random cells
    while the blanked cells stay uniquely determined.

    `System.Random` is an oracle here: every `random.Next(n)` reads one
    integer of a choice sequence the caller supplies and reduces it into
    [0, n), so each property below holds for every sequence of choices. */
module Generator {
  import opened Arith
  import opened Board
  import opened Positions
  import opened Doku
  import Options
  import GridStore
  import BackTrack
  import SlotPerSlot

  /** `random.Next(n)`: a value in [0, n); `Next(0)` is 0. */
  function RandomBelow(choice: int, n: int): (r: int)
    ensures n > 0 ==> 0 <= r < n
    ensures n <= 0 ==> r == 0
  {
    if n <= 0 then 0 else choice % n
  }

  // ------------------------------------------------------------- sections

  /** Each of 1..n once, nothing else, as `Enumerable.Range(1, n)` holds them. */
  lemma {:induction false} Range1Count(n: nat, v: int)
    ensures multiset(Range1(n))[v] == if 1 <= v <= n then 1 else 0
  {
    if n > 0 {
      Range1Step(n);
      Range1Count(n - 1, v);
      var before := multiset(Range1(n - 1))[v];
      if v == n {
        assert before == 0;
      } else {
        assert multiset{n}[v] == 0;
      }
    }
  }

  lemma Range1Step(n: nat)
    requires n > 0
    ensures multiset(Range1(n)) == multiset(Range1(n - 1)) + multiset{n}
  {
    assert Range1(n) == Range1(n - 1) + [n];
  }

  /** A k x k matrix. */
  predicate IsSection(s: Matrix, k: nat)
  {
    |s| == k && IsSquare(s)
  }

  /** A k x k section holding each of 1..k*k exactly once. */
  ghost predicate IsPermutationSection(s: Matrix, k: nat)
  {
    IsSection(s, k) &&
    forall v :: multiset(GridStore.Flatten(s))[v] == if 1 <= v <= k * k then 1 else 0
  }

  /** `GenerateSection(sectionSize)`: pick t takes element `Next(count)` of
      the values not yet drawn and writes it at cell (t / k, t % k), the
      order of the two nested loops. */
  method GenerateSection(k: nat, picks: seq<int>) returns (section: Matrix)
    requires |picks| == k * k
    ensures IsPermutationSection(section, k)
  {
    var numbers := Range1(k * k);
    var drawn: seq<int> := [];
    for t := 0 to k * k
      invariant |drawn| == t && |numbers| == k * k - t
      invariant multiset(drawn) + multiset(numbers) == multiset(Range1(k * k))
    {
      var index := RandomBelow(picks[t], |numbers|);
      TakeOut(numbers, index);
      drawn := drawn + [numbers[index]];
      numbers := numbers[..index] + numbers[index + 1..];
    }
    section := GridStore.Unflatten(drawn);
    DrawnSection(drawn, k);
  }

  /** Taking element `index` out of a list leaves the rest of its multiset. */
  lemma TakeOut(s: seq<int>, index: int)
    requires 0 <= index < |s|
    ensures multiset(s) == multiset(s[..index] + s[index + 1..]) + multiset{s[index]}
  {
    assert s == s[..index] + [s[index]] + s[index + 1..];
  }

  /** Laid out row by row, k*k draws of each of 1..k*k form a permutation
      section. */
  lemma DrawnSection(drawn: seq<int>, k: nat)
    requires |drawn| == k * k && multiset(drawn) == multiset(Range1(k * k))
    ensures IsPermutationSection(GridStore.Unflatten(drawn), k)
  {
    IsqrtOfSquare(k);
    assert exists m: nat :: m * m == |drawn| by {
      assert k * k == |drawn|;
    }
    GridStore.FlattenUnflatten(drawn);
    forall v
      ensures multiset(drawn)[v] == if 1 <= v <= k * k then 1 else 0
    {
      Range1Count(k * k, v);
    }
  }

  /** A list where every value occurs at most once has no repeated element. */
  lemma CountTwo(f: seq<int>, x: int, y: int)
    requires 0 <= x < y < |f| && f[x] == f[y]
    ensures multiset(f)[f[x]] >= 2
  {
    assert f == f[..y] + f[y..];
    assert f[x] in f[..y];
    assert f[y] in f[y..];
  }

  /** Two different cells of a permutation section hold different values,
      each in 1..k*k. */
  lemma SectionDistinct(s: Matrix, k: nat, a1: int, c1: int, a2: int, c2: int)
    requires IsPermutationSection(s, k)
    requires 0 <= a1 < k && 0 <= c1 < k && 0 <= a2 < k && 0 <= c2 < k
    ensures 1 <= s[a1][c1] <= k * k
    ensures (a1 != a2 || c1 != c2) ==> s[a1][c1] != s[a2][c2]
  {
    var f := GridStore.Flatten(s);
    GridStore.FlattenCell(s, a1, c1);
    GridStore.FlattenCell(s, a2, c2);
    var x, y := a1 * k + c1, a2 * k + c2;
    assert f[x] in multiset(f);
    if (a1 != a2 || c1 != c2) && s[a1][c1] == s[a2][c2] {
      if x == y {
        DivModUnique(x, k, a1, c1);
        DivModUnique(y, k, a2, c2);
      } else if x < y {
        CountTwo(f, x, y);
      } else {
        CountTwo(f, y, x);
      }
    }
  }

  // ---------------------------------------------------------------- merge

  /** Cell (i, j) lies in the k x k block whose corner is (r0, c0). */
  predicate InBlock(i: int, j: int, r0: int, c0: int, k: int)
  {
    r0 <= i < r0 + k && c0 <= j < c0 + k
  }

  /** `MergeSection(grid, section, sectionRow, sectionColumn)`: the block at
      (sectionRow * k, sectionColumn * k) becomes the section, cell by cell;
      every other cell keeps its value. */
  method MergeSection(g: Matrix, section: Matrix, sectionRow: int, sectionColumn: int) returns (r: Matrix)
    requires IsSquare(g) && IsSquare(section)
    requires |section| > 0 ==>
               0 <= sectionRow && 0 <= sectionColumn &&
               (sectionRow + 1) * |section| <= |g| && (sectionColumn + 1) * |section| <= |g|
    ensures IsSquare(r) && |r| == |g|
    ensures forall i, j :: InBounds(g, i, j) ==>
              r[i][j] == if InBlock(i, j, sectionRow * |section|, sectionColumn * |section|, |section|)
                         then section[i - sectionRow * |section|][j - sectionColumn * |section|]
                         else g[i][j]
  {
    var k := |section|;
    var r0, c0 := sectionRow * k, sectionColumn * k;
    if k > 0 {
      assert r0 + k <= |g| && c0 + k <= |g| by {
        MulSucc(sectionRow, k);
        MulSucc(sectionColumn, k);
      }
      MulMono(0, sectionRow, k);
      MulMono(0, sectionColumn, k);
    }
    r := g;
    for row := 0 to k
      invariant Merged(r, g, section, r0, c0, row, 0)
    {
      for column := 0 to k
        invariant Merged(r, g, section, r0, c0, row, column)
      {
        MergeStep(r, g, section, r0, c0, row, column);
        r := SetCell(r, r0 + row, c0 + column, section[row][column]);
      }
      NextBlockRow(r, g, section, r0, c0, row);
    }
  }

  /** The block cells before (row, column), in row-major order inside the block. */
  predicate CopiedYet(i: int, j: int, r0: int, c0: int, row: int, column: int)
  {
    i - r0 < row || (i - r0 == row && j - c0 < column)
  }

  /** What the merge loops have done by (row, column): the block cells
      before it hold the section, every other cell its old value. */
  ghost predicate Merged(r: Matrix, g: Matrix, section: Matrix, r0: int, c0: int, row: int, column: int)
  {
    IsSquare(g) && IsSquare(r) && |r| == |g| && IsSquare(section) &&
    forall i, j :: InBounds(g, i, j) ==>
      r[i][j] == if InBlock(i, j, r0, c0, |section|) && CopiedYet(i, j, r0, c0, row, column)
                 then section[i - r0][j - c0] else g[i][j]
  }

  /** One copy of a section cell. */
  lemma MergeStep(r: Matrix, g: Matrix, section: Matrix, r0: int, c0: int, row: int, column: int)
    requires Merged(r, g, section, r0, c0, row, column)
    requires 0 <= row < |section| && 0 <= column < |section|
    requires 0 <= r0 && r0 + |section| <= |g| && 0 <= c0 && c0 + |section| <= |g|
    ensures Merged(SetCell(r, r0 + row, c0 + column, section[row][column]), g, section, r0, c0, row, column + 1)
  {
  }

  /** A finished block row: the next one starts. */
  lemma NextBlockRow(r: Matrix, g: Matrix, section: Matrix, r0: int, c0: int, row: int)
    requires Merged(r, g, section, r0, c0, row, |section|)
    ensures Merged(r, g, section, r0, c0, row + 1, 0)
  {
  }

  // ------------------------------------------------------------ base grid

  /** Cells (i, j) in the same diagonal block of a board with k-wide boxes. */
  predicate OnDiagonal(i: int, j: int, k: int)
  {
    k > 0 && i / k == j / k
  }

  /** For 0 <= x: x lies in block b exactly when b*k <= x < b*k + k, and then
      its offset in the block is x % k. */
  lemma BlockOf(x: int, k: int, b: int)
    requires 0 < k && 0 <= x
    ensures x / k == b <==> b * k <= x < b * k + k
    ensures x / k == b ==> x % k == x - b * k
  {
    var q := x / k;
    assert x == q * k + x % k;
    if b * k <= x < b * k + k {
      InBoxOrigin(x, k, b);
    }
    MulSucc(q, k);
  }

  /** The board the seeding loop leaves after its first `done` boxes: box b
      on the diagonal holds section b, every other cell is 0. */
  ghost predicate Seeded(g: Matrix, k: nat, secs: seq<Matrix>, done: int)
  {
    IsSquare(g) && |g| == k * k && 0 <= done <= |secs| &&
    (forall t :: 0 <= t < done ==> IsSection(secs[t], k)) &&
    forall i, j :: InBounds(g, i, j) ==> g[i][j] == SeedValue(secs, k, done, i, j)
  }

  /** What cell (i, j) holds once the first `done` diagonal boxes are seeded. */
  ghost function SeedValue(secs: seq<Matrix>, k: nat, done: int, i: int, j: int): int
    requires 0 <= done <= |secs| && 0 <= i < k * k && 0 <= j < k * k
    requires forall t :: 0 <= t < done ==> IsSection(secs[t], k)
  {
    if OnDiagonal(i, j, k) && i / k < done then
      var b := i / k;
      RankSplit(i, k);
      RankSplit(j, k);
      assert IsSection(secs[b], k);
      secs[b][i % k][j % k]
    else 0
  }

  /** Merging section b on the diagonal extends the seeded boxes by one. */
  lemma MergeExtendsSeeded(g: Matrix, g': Matrix, k: nat, secs: seq<Matrix>, b: int)
    requires 0 <= b < k && Seeded(g, k, secs, b) && |secs| > b && IsSection(secs[b], k)
    requires IsSquare(g') && |g'| == |g|
    requires forall i, j :: InBounds(g, i, j) ==>
               g'[i][j] == if InBlock(i, j, b * k, b * k, k) then secs[b][i - b * k][j - b * k] else g[i][j]
    ensures Seeded(g', k, secs, b + 1)
  {
    forall i, j | InBounds(g', i, j)
      ensures g'[i][j] == SeedValue(secs, k, b + 1, i, j)
    {
      MergedCell(g, g', k, secs, b, i, j);
    }
  }

  /** One round of the seeding loop: merging a k x k section as box b of
      the diagonal extends the seeded boxes by that section. */
  lemma SeedStep(g: Matrix, g': Matrix, k: nat, secs: seq<Matrix>, section: Matrix, b: int)
    requires 0 <= b < k && Seeded(g, k, secs, b) && |secs| == b && IsSection(section, k)
    requires IsSquare(g') && |g'| == |g|
    requires forall i, j :: InBounds(g, i, j) ==>
               g'[i][j] == if InBlock(i, j, b * |section|, b * |section|, |section|)
                           then section[i - b * |section|][j - b * |section|]
                           else g[i][j]
    ensures Seeded(g', k, secs + [section], b + 1)
  {
    var secs' := secs + [section];
    assert secs'[b] == section;
    forall i, j | InBounds(g, i, j)
      ensures g[i][j] == SeedValue(secs', k, b, i, j)
    {
      assert SeedValue(secs', k, b, i, j) == SeedValue(secs, k, b, i, j);
    }
    MergeExtendsSeeded(g, g', k, secs', b);
  }

  /** One cell of `MergeExtendsSeeded`. */
  lemma MergedCell(g: Matrix, g': Matrix, k: nat, secs: seq<Matrix>, b: int, i: int, j: int)
    requires 0 <= b < k && Seeded(g, k, secs, b) && |secs| > b && IsSection(secs[b], k)
    requires IsSquare(g') && |g'| == |g| && InBounds(g, i, j)
    requires g'[i][j] == if InBlock(i, j, b * k, b * k, k) then secs[b][i - b * k][j - b * k] else g[i][j]
    ensures g'[i][j] == SeedValue(secs, k, b + 1, i, j)
  {
    BlockOf(i, k, b);
    BlockOf(j, k, b);
  }

  /** `GenerateBaseGrid(grid, sectionSize)` on a fresh `new Grid(k*k)`: box i
      of the diagonal gets the i-th generated section. */
  method GenerateBaseGrid(k: nat, picks: seq<seq<int>>) returns (g: Matrix)
    requires |picks| == k && forall b :: 0 <= b < k ==> |picks[b]| == k * k
    ensures IsSquare(g) && |g| == k * k
    ensures forall i, j :: InBounds(g, i, j) ==> (g[i][j] != 0 <==> OnDiagonal(i, j, k))
    ensures k > 0 ==> g[k * k - 1][k * k - 1] != 0
    ensures Sound(g)
  {
    g := GridStore.ZeroMatrix(k * k);
    ghost var secs: seq<Matrix> := [];
    assert Seeded(g, k, secs, 0);
    for b := 0 to k
      invariant BaseLoop(g, k, secs, b)
    {
      var section := GenerateSection(k, picks[b]);
      assert (b + 1) * k <= k * k by {
        MulLe(b + 1, k, k);
      }
      var g' := MergeSection(g, section, b, b);
      BaseStep(g, g', k, secs, section, b);
      secs := secs + [section];
      g := g';
    }
    BaseDone(g, k, secs);
  }

  /** Loop invariant of `GenerateBaseGrid`: the first b diagonal boxes hold
      permutation sections. */
  ghost predicate BaseLoop(g: Matrix, k: nat, secs: seq<Matrix>, b: int)
  {
    Seeded(g, k, secs, b) && |secs| == b &&
    forall t :: 0 <= t < b ==> IsPermutationSection(secs[t], k)
  }

  /** One iteration of `GenerateBaseGrid` keeps `BaseLoop`. */
  lemma BaseStep(g: Matrix, g': Matrix, k: nat, secs: seq<Matrix>, section: Matrix, b: int)
    requires 0 <= b < k && BaseLoop(g, k, secs, b) && IsPermutationSection(section, k)
    requires IsSquare(g') && |g'| == |g|
    requires forall i, j :: InBounds(g, i, j) ==>
               g'[i][j] == if InBlock(i, j, b * |section|, b * |section|, |section|)
                           then section[i - b * |section|][j - b * |section|]
                           else g[i][j]
    ensures BaseLoop(g', k, secs + [section], b + 1)
  {
    SeedStep(g, g', k, secs, section, b);
    var secs' := secs + [section];
    forall t | 0 <= t < b + 1 ensures IsPermutationSection(secs'[t], k) {
      if t < b { assert secs'[t] == secs[t]; } else { assert secs'[t] == section; }
    }
  }

  /** What `GenerateBaseGrid` promises, once every diagonal box is seeded. */
  lemma BaseDone(g: Matrix, k: nat, secs: seq<Matrix>)
    requires BaseLoop(g, k, secs, k)
    ensures IsSquare(g) && |g| == k * k
    ensures forall i, j :: InBounds(g, i, j) ==> (g[i][j] != 0 <==> OnDiagonal(i, j, k))
    ensures k > 0 ==> g[k * k - 1][k * k - 1] != 0
    ensures Sound(g)
  {
    SeededFacts(g, k, secs);
    if k > 0 {
      assert OnDiagonal(k * k - 1, k * k - 1, k);
      assert InBounds(g, k * k - 1, k * k - 1);
    }
  }

  /** A fully seeded board: exactly the diagonal boxes are filled, and it is
      sound, since diagonal boxes share no row, column or box. */
  lemma SeededFacts(g: Matrix, k: nat, secs: seq<Matrix>)
    requires Seeded(g, k, secs, k)
    requires forall t :: 0 <= t < k ==> IsPermutationSection(secs[t], k)
    ensures forall i, j :: InBounds(g, i, j) ==> (g[i][j] != 0 <==> OnDiagonal(i, j, k))
    ensures Sound(g)
  {
    if k > 0 {
      IsqrtOfSquare(k);
      assert BoxSize(g) == k;
      assert |g| % k == 0 by {
        DivModUnique(k * k, k, k, 0);
      }
      forall i, j | InBounds(g, i, j) && OnDiagonal(i, j, k)
        ensures 1 <= g[i][j] <= |g|
      {
        RankSplit(i, k);
        RankSplit(j, k);
        SectionDistinct(secs[i / k], k, i % k, j % k, i % k, j % k);
      }
      forall r1, c1, r2, c2 |
        InBounds(g, r1, c1) && InBounds(g, r2, c2) && (r1 != r2 || c1 != c2) &&
        SameUnit(BoxSize(g), r1, c1, r2, c2) && g[r1][c1] != 0
        ensures g[r1][c1] != g[r2][c2]
      {
        SeededPairDistinct(g, k, secs, r1, c1, r2, c2);
      }
    }
  }

  /** Two different cells of one unit of a seeded board never repeat a
      non-zero value. */
  lemma SeededPairDistinct(g: Matrix, k: nat, secs: seq<Matrix>, r1: int, c1: int, r2: int, c2: int)
    requires k > 0 && Seeded(g, k, secs, k)
    requires forall t :: 0 <= t < k ==> IsPermutationSection(secs[t], k)
    requires InBounds(g, r1, c1) && InBounds(g, r2, c2) && (r1 != r2 || c1 != c2)
    requires SameUnit(k, r1, c1, r2, c2) && g[r1][c1] != 0
    ensures g[r1][c1] != g[r2][c2]
  {
    if g[r2][c2] != 0 {
      assert OnDiagonal(r1, c1, k) && OnDiagonal(r2, c2, k);
      SameBoxStartIffSameQuotient(r1, r2, k);
      assert r1 / k == r2 / k;
      var b := r1 / k;
      RankSplit(r1, k);
      RankSplit(r2, k);
      RankSplit(c1, k);
      RankSplit(c2, k);
      assert r1 == b * k + r1 % k && r2 == b * k + r2 % k;
      assert c1 == b * k + c1 % k && c2 == b * k + c2 % k;
      SectionDistinct(secs[b], k, r1 % k, c1 % k, r2 % k, c2 % k);
    }
  }

  /** `GenerateSolvedGrid(sectionSize)`: seed, complete with the
      backtracking solver, and give up (null) unless the result is full.
      A seeded board has its bottom-right cell given, so the search as
      written hands back what the corrected search does
      (`BackTrack.FixedAgrees`). */
  method GenerateSolvedGrid(k: nat, picks: seq<seq<int>>) returns (r: Options.Option<Matrix>)
    requires |picks| == k && forall b :: 0 <= b < k ==> |picks[b]| == k * k
    ensures r.Some? ==> IsSolution(r.value) && |r.value| == k * k
  {
    var base := GenerateBaseGrid(k, picks);
    var solved := BackTrack.Solve(base);
    if k > 0 {
      assert At(base, Last(|base|)) != 0;
      BackTrack.FixedAgrees(base, Origin());
      assert solved == BackTrack.SolveFixed(base).grid;
    }
    BackTrack.SolveFixedIsSolution(base);
    if !IsFilled(solved) {
      r := Options.None;
    } else {
      r := Options.Some(solved);
    }
  }

  // ---------------------------------------------------------------- carve

  /** `GetRandomPosition(sectionSize)`: two independent draws below k*k. */
  function GetRandomPosition(k: int, rowChoice: int, columnChoice: int): (p: Position)
    ensures k != 0 ==> InRange(p, k * k)
  {
    Position(RandomBelow(rowChoice, k * k), RandomBelow(columnChoice, k * k))
  }

  /** The number of candidates of a cell. */
  function CandidateCount(g: Matrix, p: Position): nat
    requires IsWellFormed(g) && InRange(p, |g|)
  {
    |GetSlotPossibilities(g, p.row, p.column)|
  }

  predicate AllInRange(ps: seq<Position>, n: int)
  {
    forall t :: 0 <= t < |ps| ==> InRange(ps[t], n)
  }

  /** The candidate counts of the listed cells, in order. */
  function CandidateCounts(g: Matrix, ps: seq<Position>): (counts: seq<nat>)
    requires IsWellFormed(g) && AllInRange(ps, |g|)
    ensures |counts| == |ps| && forall t :: 0 <= t < |ps| ==> counts[t] == CandidateCount(g, ps[t])
  {
    seq(|ps|, t requires 0 <= t < |ps| => CandidateCount(g, ps[t]))
  }

  /** The `foreach` of `IsDeletionValid` over the counts from `from` on,
      starting from the given flags. */
  function DeletionFlags(counts: seq<nat>, from: nat, is1Present: bool, isLess2Present: bool): bool
    requires from <= |counts|
    decreases |counts| - from
  {
    if from == |counts| then is1Present && isLess2Present
    else
      var count := counts[from];
      DeletionFlags(counts, from + 1, is1Present || count == 1, isLess2Present && !(count >= 2))
  }

  lemma {:induction false} DeletionFlagsMeaning(counts: seq<nat>, from: nat, is1Present: bool, isLess2Present: bool)
    requires from <= |counts|
    ensures DeletionFlags(counts, from, is1Present, isLess2Present) <==>
              (is1Present || exists t :: from <= t < |counts| && counts[t] == 1) &&
              (isLess2Present && forall t :: from <= t < |counts| ==> counts[t] < 2)
    decreases |counts| - from
  {
    if from < |counts| {
      var count := counts[from];
      DeletionFlagsMeaning(counts, from + 1, is1Present || count == 1, isLess2Present && !(count >= 2));
    }
  }

  /** `IsDeletionValid(grid, positions)`: some listed cell has exactly one
      candidate and none has two or more. */
  function IsDeletionValid(g: Matrix, ps: seq<Position>): (b: bool)
    requires IsWellFormed(g) && AllInRange(ps, |g|)
    ensures b <==> (exists t :: 0 <= t < |ps| && CandidateCount(g, ps[t]) == 1) &&
                   (forall t :: 0 <= t < |ps| ==> CandidateCount(g, ps[t]) < 2)
    ensures |ps| == 0 ==> !b
  {
    var counts := CandidateCounts(g, ps);
    DeletionFlagsMeaning(counts, 0, false, true);
    DeletionFlags(counts, 0, false, true)
  }

  /** A cell the carve step blanked, with the value it held. */
  datatype Removal = Removal(position: Position, value: int)

  predicate RemovalsInRange(removed: seq<Removal>, n: int)
  {
    forall t :: 0 <= t < |removed| ==> InRange(removed[t].position, n)
  }

  /** `removedPositions`, the list the deletion check reads. */
  function RemovedPositions(removed: seq<Removal>): (ps: seq<Position>)
    ensures |ps| == |removed| && forall t :: 0 <= t < |ps| ==> ps[t] == removed[t].position
    ensures forall n :: RemovalsInRange(removed, n) ==> AllInRange(ps, n)
  {
    seq(|removed|, t requires 0 <= t < |removed| => removed[t].position)
  }

  /** Lines 20-25 and 27-32: a non-blank cell is blanked and recorded; a
      blank one is left alone. */
  function TryRemove(g: Matrix, removed: seq<Removal>, q: Position): (r: (Matrix, seq<Removal>))
    requires IsSquare(g) && InRange(q, |g|)
    ensures IsSquare(r.0) && |r.0| == |g|
    ensures RemovalsInRange(removed, |g|) ==> RemovalsInRange(r.1, |g|)
  {
    if At(g, q) != 0 then (Put(g, q, 0), removed + [Removal(q, At(g, q))]) else (g, removed)
  }

  /** The `while (IsDeletionValid(...))` loop of lines 26-33, one choice pair
      per round; None when the choices run out first. */
  function CarveFrom(g: Matrix, removed: seq<Removal>, k: int, choices: seq<(int, int)>): (r: Options.Option<(Matrix, seq<Removal>)>)
    requires k > 0 && IsWellFormed(g) && |g| == k * k && RemovalsInRange(removed, |g|)
    ensures r.Some? ==> IsWellFormed(r.value.0) && |r.value.0| == |g| && RemovalsInRange(r.value.1, |g|)
    decreases |choices|
  {
    if !IsDeletionValid(g, RemovedPositions(removed)) then Options.Some((g, removed))
    else if |choices| == 0 then Options.None
    else
      var q := GetRandomPosition(k, choices[0].0, choices[0].1);
      var next := TryRemove(g, removed, q);
      CarveFrom(next.0, next.1, k, choices[1..])
  }

  /** Lines 17-33: a copy of the solved board, one removal, then the loop. */
  function CarveState(base: Matrix, k: int, first: (int, int), choices: seq<(int, int)>): (r: Options.Option<(Matrix, seq<Removal>)>)
    requires k > 0 && IsWellFormed(base) && |base| == k * k
    ensures r.Some? ==> IsWellFormed(r.value.0) && |r.value.0| == |base| && RemovalsInRange(r.value.1, |base|)
  {
    var start := TryRemove(base, [], GetRandomPosition(k, first.0, first.1));
    CarveFrom(start.0, start.1, k, choices)
  }

  /** How one carve attempt ends. */
  datatype CarveResult =
    | Carved(grid: Matrix)
    | OutOfChoices    // the loop of lines 26-33 had not stopped
    | NothingRemoved  // `removedPositions[^1]` on an empty list throws

  /** Line 34: the cell removed last is written back, since removing it is
      what made the deletion invalid. */
  function Carve(base: Matrix, k: int, first: (int, int), choices: seq<(int, int)>): (r: CarveResult)
    requires k > 0 && IsWellFormed(base) && |base| == k * k
    ensures r.Carved? ==> IsWellFormed(r.grid) && |r.grid| == |base|
  {
    var state := CarveState(base, k, first, choices);
    if state.None? then OutOfChoices
    else if |state.value.1| == 0 then NothingRemoved
    else
      var last := state.value.1[|state.value.1| - 1];
      Carved(Put(state.value.0, last.position, last.value))
  }

  /** What the carve loop keeps: every cell is blank or as in the solved
      board, and every recorded removal is blank now and remembers the
      solved board's non-zero value. */
  ghost predicate CarvedFrom(base: Matrix, g: Matrix, removed: seq<Removal>)
    requires IsSquare(base)
  {
    IsSquare(g) && |g| == |base| && RemovalsInRange(removed, |g|) &&
    (forall i, j :: InBounds(g, i, j) ==> g[i][j] == 0 || g[i][j] == base[i][j]) &&
    forall t :: 0 <= t < |removed| ==>
      At(g, removed[t].position) == 0 && removed[t].value == At(base, removed[t].position) && removed[t].value != 0
  }

  lemma TryRemoveKeeps(base: Matrix, g: Matrix, removed: seq<Removal>, q: Position)
    requires IsSquare(base) && CarvedFrom(base, g, removed) && InRange(q, |g|)
    ensures CarvedFrom(base, TryRemove(g, removed, q).0, TryRemove(g, removed, q).1)
  {
    if At(g, q) != 0 {
      var g' := Put(g, q, 0);
      forall t | 0 <= t < |removed|
        ensures At(g', removed[t].position) == 0
      {
        PutAt(g, q, 0, removed[t].position);
      }
      forall i, j | InBounds(g', i, j)
        ensures g'[i][j] == 0 || g'[i][j] == base[i][j]
      {
        PutAt(g, q, 0, Position(i, j));
      }
    }
  }

  /** The loop keeps `CarvedFrom`, and it stops only on an invalid deletion. */
  lemma {:induction false} CarveFromFacts(base: Matrix, g: Matrix, removed: seq<Removal>, k: int, choices: seq<(int, int)>)
    requires k > 0 && IsWellFormed(g) && |g| == k * k
    requires IsSquare(base) && CarvedFrom(base, g, removed)
    ensures CarveFrom(g, removed, k, choices).Some? ==>
              CarvedFrom(base, CarveFrom(g, removed, k, choices).value.0, CarveFrom(g, removed, k, choices).value.1) &&
              !IsDeletionValid(CarveFrom(g, removed, k, choices).value.0,
                               RemovedPositions(CarveFrom(g, removed, k, choices).value.1))
    decreases |choices|
  {
    if IsDeletionValid(g, RemovedPositions(removed)) && |choices| > 0 {
      var q := GetRandomPosition(k, choices[0].0, choices[0].1);
      TryRemoveKeeps(base, g, removed, q);
      var next := TryRemove(g, removed, q);
      CarveFromFacts(base, next.0, next.1, k, choices[1..]);
    }
  }

  /** The loop's end state: carved from the solved board, and its removals
      no longer a valid deletion. When the solved board is full the first
      removal always happens, so the `[^1]` access never fails. */
  lemma CarveStateFacts(base: Matrix, k: int, first: (int, int), choices: seq<(int, int)>)
    requires k > 0 && IsWellFormed(base) && |base| == k * k
    ensures CarveState(base, k, first, choices).Some? ==>
              CarvedFrom(base, CarveState(base, k, first, choices).value.0, CarveState(base, k, first, choices).value.1) &&
              !IsDeletionValid(CarveState(base, k, first, choices).value.0,
                               RemovedPositions(CarveState(base, k, first, choices).value.1))
    ensures CarveState(base, k, first, choices).Some? && IsFilled(base) ==>
              |CarveState(base, k, first, choices).value.1| > 0
  {
    var q := GetRandomPosition(k, first.0, first.1);
    assert CarvedFrom(base, base, []);
    TryRemoveKeeps(base, base, [], q);
    var start := TryRemove(base, [], q);
    CarveFromFacts(base, start.0, start.1, k, choices);
    if IsFilled(base) {
      assert |start.1| == 1;
      CarveFromGrows(start.0, start.1, k, choices);
    }
  }

  /** The loop only ever appends removals. */
  lemma {:induction false} CarveFromGrows(g: Matrix, removed: seq<Removal>, k: int, choices: seq<(int, int)>)
    requires k > 0 && IsWellFormed(g) && |g| == k * k && RemovalsInRange(removed, |g|)
    ensures CarveFrom(g, removed, k, choices).Some? ==> |CarveFrom(g, removed, k, choices).value.1| >= |removed|
    decreases |choices|
  {
    if IsDeletionValid(g, RemovedPositions(removed)) && |choices| > 0 {
      var q := GetRandomPosition(k, choices[0].0, choices[0].1);
      var next := TryRemove(g, removed, q);
      CarveFromGrows(next.0, next.1, k, choices[1..]);
    }
  }

  /** A carved board is the solved board with some cells blanked, and the
      cell written back holds its solved value again; without it the
      blanked cells were no longer a valid deletion. */
  lemma CarveFacts(base: Matrix, k: int, first: (int, int), choices: seq<(int, int)>)
    requires k > 0 && IsWellFormed(base) && |base| == k * k
    ensures IsFilled(base) ==> !Carve(base, k, first, choices).NothingRemoved?
    ensures Carve(base, k, first, choices).Carved? ==>
              var r := Carve(base, k, first, choices).grid;
              IsWellFormed(r) && |r| == |base| &&
              forall i, j :: InBounds(r, i, j) ==> r[i][j] == 0 || r[i][j] == base[i][j]
    ensures Carve(base, k, first, choices).Carved? ==>
              var state := CarveState(base, k, first, choices).value;
              var q := state.1[|state.1| - 1].position;
              InRange(q, |base|) && At(state.0, q) == 0 && At(base, q) != 0 &&
              Carve(base, k, first, choices).grid == Put(state.0, q, At(base, q))
  {
    CarveStateFacts(base, k, first, choices);
    var state := CarveState(base, k, first, choices);
    if state.Some? && |state.value.1| > 0 {
      var g, removed := state.value.0, state.value.1;
      var last := removed[|removed| - 1];
      assert last.value == At(base, last.position);
      assert Carve(base, k, first, choices) == Carved(Put(g, last.position, last.value));
      RestoreKeeps(base, g, last.position);
    }
  }

  /** Writing the solved value back into a carved board keeps it carved. */
  lemma RestoreKeeps(base: Matrix, g: Matrix, q: Position)
    requires IsSquare(base) && IsSquare(g) && |g| == |base| && InRange(q, |g|)
    requires forall i, j :: InBounds(g, i, j) ==> g[i][j] == 0 || g[i][j] == base[i][j]
    ensures forall i, j :: InBounds(g, i, j) ==>
              Put(g, q, At(base, q))[i][j] == 0 || Put(g, q, At(base, q))[i][j] == base[i][j]
  {
    forall i, j | InBounds(g, i, j)
      ensures Put(g, q, At(base, q))[i][j] == 0 || Put(g, q, At(base, q))[i][j] == base[i][j]
    {
      PutAt(g, q, At(base, q), Position(i, j));
    }
  }

  /** `GenerateUnsolved(sectionSize)` once a solved board is at hand: carve
      attempts repeat while `IsSolved(SlotPerSlot.Solve(grid, 100))` holds
      (line 35). None when the attempts run out or one of them does not
      finish. */
  function GenerateUnsolved(base: Matrix, k: int, attempts: seq<((int, int), seq<(int, int)>)>): (r: Options.Option<Matrix>)
    requires k > 0 && IsWellFormed(base) && |base| == k * k
    ensures r.Some? ==> IsWellFormed(r.value) && |r.value| == |base| && !IsSolved(SlotPerSlot.Solve(r.value, 100))
    decreases |attempts|
  {
    if |attempts| == 0 then Options.None
    else
      var attempt := Carve(base, k, attempts[0].0, attempts[0].1);
      if !attempt.Carved? then Options.None
      else
        CarveFacts(base, k, attempts[0].0, attempts[0].1);
        if IsSolved(SlotPerSlot.Solve(attempt.grid, 100)) then GenerateUnsolved(base, k, attempts[1..])
        else Options.Some(attempt.grid)
  }

  /** The puzzle handed out is the solved board with cells blanked, and the
      slot-by-slot solver does not finish it in 100 passes. */
  lemma {:induction false} GenerateUnsolvedFacts(base: Matrix, k: int, attempts: seq<((int, int), seq<(int, int)>)>)
    requires k > 0 && IsWellFormed(base) && |base| == k * k
    ensures GenerateUnsolved(base, k, attempts).Some? ==>
              var r := GenerateUnsolved(base, k, attempts).value;
              IsWellFormed(r) && |r| == |base| &&
              (forall i, j :: InBounds(r, i, j) ==> r[i][j] == 0 || r[i][j] == base[i][j]) &&
              !IsSolved(SlotPerSlot.Solve(r, 100))
    decreases |attempts|
  {
    if |attempts| > 0 {
      CarveFacts(base, k, attempts[0].0, attempts[0].1);
      GenerateUnsolvedFacts(base, k, attempts[1..]);
    }
  }

  /** `GetAvailablePositions(grid)`: the non-blank cells, row by row. */
  method GetAvailablePositions(g: Matrix) returns (ps: seq<Position>)
    requires IsSquare(g)
    ensures forall t :: 0 <= t < |ps| ==> InRange(ps[t], |g|) && At(g, ps[t]) != 0
    ensures forall i, j :: InBounds(g, i, j) && g[i][j] != 0 ==> Position(i, j) in ps
    ensures forall s, t :: 0 <= s < t < |ps| ==> Precedes(ps[s], ps[t])
  {
    ps := [];
    for i := 0 to |g|
      invariant forall t :: 0 <= t < |ps| ==> InRange(ps[t], |g|) && At(g, ps[t]) != 0 && ps[t].row < i
      invariant forall r, c :: InBounds(g, r, c) && r < i && g[r][c] != 0 ==> Position(r, c) in ps
      invariant forall s, t :: 0 <= s < t < |ps| ==> Precedes(ps[s], ps[t])
    {
      for j := 0 to |g|
        invariant forall t :: 0 <= t < |ps| ==> InRange(ps[t], |g|) && At(g, ps[t]) != 0 && Precedes(ps[t], Position(i, j))
        invariant forall r, c :: InBounds(g, r, c) && Precedes(Position(r, c), Position(i, j)) && g[r][c] != 0 ==> Position(r, c) in ps
        invariant forall s, t :: 0 <= s < t < |ps| ==> Precedes(ps[s], ps[t])
      {
        if g[i][j] != 0 {
          ps := ps + [Position(i, j)];
        }
      }
    }
  }
}

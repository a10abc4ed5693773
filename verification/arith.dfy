/** Integer facts the grid code relies on: the integer square root that stands
    for `(int)Math.Sqrt(n)`, and the box-origin arithmetic `x - x % k`. */
module Arith {

  /** The largest s with s*s <= n. */
  function Isqrt(n: nat): (s: nat)
    ensures s * s <= n < (s + 1) * (s + 1)
  {
    IsqrtFrom(n, 0)
  }

  function IsqrtFrom(n: nat, s: nat): (r: nat)
    requires s * s <= n
    ensures r * r <= n < (r + 1) * (r + 1)
    decreases n - s
  {
    if (s + 1) * (s + 1) > n then s
    else
      assert s + 1 <= (s + 1) * (s + 1);
      IsqrtFrom(n, s + 1)
  }

  lemma MulLe(a: int, b: int, c: nat)
    requires a <= b
    ensures a * c <= b * c
  {
  }

  lemma MulSucc(a: int, n: int)
    ensures (a + 1) * n == a * n + n
  {
  }

  /** `MulLe` as an implication, for use where the order is not yet known. */
  lemma MulMono(a: int, b: int, c: int)
    ensures 0 <= c && a <= b ==> a * c <= b * c
  {
    if 0 <= c && a <= b {
      MulLe(a, b, c);
    }
  }

  lemma SquareMonotone(a: nat, b: nat)
    requires a <= b
    ensures a * a <= b * b
  {
    MulLe(a, b, a);
    MulLe(a, b, b);
  }

  /** Squaring preserves and reflects the order of naturals. */
  lemma SquareOrder(a: nat, b: nat)
    ensures a * a <= b * b <==> a <= b
  {
    if a <= b {
      SquareMonotone(a, b);
    } else {
      SquareMonotone(b + 1, a);
      assert (b + 1) * (b + 1) == b * b + 2 * b + 1;
    }
  }

  /** On perfect squares the square root is exact, so a grid of k*k rows has boxes of side k. */
  lemma IsqrtOfSquare(k: nat)
    ensures Isqrt(k * k) == k
  {
    var s := Isqrt(k * k);
    SquareOrder(s, k);
    SquareOrder(s + 1, k);
  }

  /** Euclidean division is unique: q and d are the quotient and remainder of q*k + d. */
  lemma DivModUnique(x: int, k: int, q: int, d: int)
    requires 0 < k && 0 <= d < k && x == q * k + d
    ensures x / k == q && x % k == d
  {
    var q', d' := x / k, x % k;
    assert x == q' * k + d';
    MulMono(q' + 1, q, k);
    MulMono(q + 1, q', k);
    assert (q' + 1) * k == q' * k + k && (q + 1) * k == q * k + k;
  }

  /** A rank below s*s splits into a row below s and a column below s. */
  lemma RankSplit(t: int, s: int)
    requires 0 < s && 0 <= t < s * s
    ensures 0 <= t / s < s && 0 <= t % s < s && t == (t / s) * s + t % s
  {
    MulMono(s, t / s, s);
  }

  /** Row i of width n ends no later than the n-th row does. */
  lemma RowEnd(i: int, n: nat, count: int)
    requires 0 <= i < count
    ensures i * n + n <= count * n
  {
    MulLe(i + 1, count, n);
  }

  /** The first row (or column) of the box holding x, as Solver.cs computes it. */
  function BoxStart(x: int, k: int): int
    requires k > 0
  {
    x - x % k
  }

  /** Doku.cs computes the same origin as `(x / k) * k`; a box of side k that
      starts there stays inside any n that k divides. */
  lemma BoxStartFacts(x: int, k: int, n: int)
    requires 0 < k && 0 <= x < n && n % k == 0
    ensures BoxStart(x, k) == (x / k) * k
    ensures 0 <= BoxStart(x, k) <= x < BoxStart(x, k) + k <= n
  {
    var q, m := x / k, n / k;
    assert n == m * k;
    assert x == q * k + x % k;
    MulMono(m, q, k);
    assert q < m;
    MulLe(q + 1, m, k);
    assert (q + 1) * k == q * k + k;
  }

  /** Every x in the box [b*k, b*k + k) has box origin b*k and quotient b. */
  lemma InBoxOrigin(x: int, k: int, b: int)
    requires 0 < k && b * k <= x < b * k + k
    ensures x / k == b && BoxStart(x, k) == b * k
  {
    DivModUnique(x, k, b, x - b * k);
  }

  /** Two points share a box origin exactly when they share a quotient.
      A convenience fact: it follows from the definitions alone. */
  lemma SameBoxStartIffSameQuotient(x: int, y: int, k: int)
    requires 0 < k
    ensures BoxStart(x, k) == BoxStart(y, k) <==> x / k == y / k
  {
  }
}

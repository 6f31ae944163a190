/**
 * The digital line walked by the line-of-sight test and re-used by the densifier.
 * From a toward b the walk steps one cell at a time along the axis with the larger
 * absolute difference (y wins ties) and interpolates the other coordinate, truncated.
 */
module LineOfSight {
  import opened Grid

  /** The minor coordinate of sample i: Python's int(a0 + i * d / m), computed exactly. */
  function Minor(a0: int, d: int, m: int, i: int): int
    requires m > 0
  {
    TruncDiv(a0 * m + i * d, m)
  }

  lemma MinorDividend(a0: int, d: int, m: int, i: int)
    requires m > 0 && Abs(d) <= m && 0 <= i <= m
    ensures Between(a0 * m, a0 * m + i * d, a0 * m + m * d)
    ensures (a0 + d) * m == a0 * m + m * d
  {
    if d >= 0 {
      MulMono(0, i, d);
      MulMono(i, m, d);
    } else {
      MulMono(0, i, -d);
      MulMono(i, m, -d);
    }
  }

  lemma MinorBetween(a0: int, d: int, m: int, i: int)
    requires m > 0 && Abs(d) <= m && 0 <= i <= m
    ensures Between(a0, Minor(a0, d, m, i), a0 + d)
  {
    MinorDividend(a0, d, m, i);
    var n := a0 * m + i * d;
    TruncDivExact(a0, m);
    TruncDivExact(a0 + d, m);
    if d >= 0 {
      TruncDivMono(a0 * m, n, m);
      TruncDivMono(n, (a0 + d) * m, m);
    } else {
      TruncDivMono(n, a0 * m, m);
      TruncDivMono((a0 + d) * m, n, m);
    }
  }

  /** Between two grid cells (non-negative coordinates) the minor coordinate moves by at most one per step. */
  lemma MinorStep(a0: int, d: int, m: int, i: int)
    requires m > 0 && Abs(d) <= m && 0 <= i < m
    requires a0 >= 0 && a0 + d >= 0
    ensures Abs(Minor(a0, d, m, i + 1) - Minor(a0, d, m, i)) <= 1
  {
    MinorDividend(a0, d, m, i);
    MinorDividend(a0, d, m, i + 1);
    MulMono(0, a0, m);
    MulMono(0, a0 + d, m);
    var n := a0 * m + i * d;
    assert a0 * m + (i + 1) * d == n + d;
    FloorStep(n, d, m);
  }

  /**
   * Sample i (0 <= i <= Chebyshev(a, b)) of the walk from a toward b. Sample Chebyshev(a, b) is b
   * itself; the walks of the source stop one sample earlier.
   */
  function Sample(a: Cell, b: Cell, i: int): (c: Cell)
    requires 0 <= i <= Chebyshev(a, b)
    ensures Between(a.x, c.x, b.x) && Between(a.y, c.y, b.y)
  {
    var dx := b.x - a.x;
    var dy := b.y - a.y;
    if Abs(dx) > Abs(dy) then
      MinorBetween(a.y, dy, Abs(dx), i);
      Cell(if dx > 0 then a.x + i else a.x - i, Minor(a.y, dy, Abs(dx), i))
    else if dy > 0 then
      MinorBetween(a.x, dx, dy, i);
      Cell(Minor(a.x, dx, dy, i), a.y + i)
    else if dy < 0 then
      MinorBetween(a.x, dx, -dy, i);
      Cell(Minor(a.x, dx, -dy, i), a.y - i)
    else
      a
  }

  /** The walk starts at a, reaches b exactly at sample Chebyshev(a, b), and no earlier sample is b. */
  lemma SampleEndpoints(a: Cell, b: Cell)
    ensures Sample(a, b, 0) == a
    ensures Sample(a, b, Chebyshev(a, b)) == b
    ensures forall i :: 0 <= i < Chebyshev(a, b) ==> Sample(a, b, i) != b
  {
    var dx, dy, m := b.x - a.x, b.y - a.y, Chebyshev(a, b);
    if m > 0 {
      if Abs(dx) > Abs(dy) {
        TruncDivExact(a.y, m);
        MinorDividend(a.y, dy, m, m);
        TruncDivExact(a.y + dy, m);
      } else {
        TruncDivExact(a.x, m);
        MinorDividend(a.x, dx, m, m);
        TruncDivExact(a.x + dx, m);
      }
    }
  }

  /** Between cells with non-negative coordinates, successive samples are 8-neighbours. */
  lemma SampleAdjacent(a: Cell, b: Cell, i: int)
    requires a.x >= 0 && a.y >= 0 && b.x >= 0 && b.y >= 0
    requires 0 <= i < Chebyshev(a, b)
    ensures Chebyshev(Sample(a, b, i), Sample(a, b, i + 1)) == 1
  {
    var dx, dy := b.x - a.x, b.y - a.y;
    if Abs(dx) > Abs(dy) {
      MinorStep(a.y, dy, Abs(dx), i);
    } else if dy > 0 {
      MinorStep(a.x, dx, dy, i);
    } else {
      MinorStep(a.x, dx, -dy, i);
    }
  }

  /** A sampled cell stops the line of sight when its cost exceeds 50. */
  predicate Blocked(m: GridMap, c: Cell)
    requires m.WellFormed() && m.InBounds(c)
  {
    m.Cost(c) > 50
  }

  /** The walk from sample i onward meets a blocked cell. */
  function BlockedFrom(m: GridMap, a: Cell, b: Cell, i: nat): (r: bool)
    requires m.WellFormed() && m.InBounds(a) && m.InBounds(b) && i <= Chebyshev(a, b)
    ensures r <==> exists j :: i <= j < Chebyshev(a, b) && Blocked(m, Sample(a, b, j))
    decreases Chebyshev(a, b) - i
  {
    if i == Chebyshev(a, b) then false
    else if m.Cost(Sample(a, b, i)) > 50 then true
    else BlockedFrom(m, a, b, i + 1)
  }

  /**
   * check_obstacle: true exactly when one of the samples 0 .. Chebyshev(a, b) - 1 has cost
   * above 50. The end point b itself is never sampled, so a cell is never blocked from itself.
   */
  function CheckObstacle(m: GridMap, a: Cell, b: Cell): (r: bool)
    requires m.WellFormed() && m.InBounds(a) && m.InBounds(b)
    ensures r <==> exists j :: 0 <= j < Chebyshev(a, b) && Blocked(m, Sample(a, b, j))
    ensures a == b ==> !r
  {
    BlockedFrom(m, a, b, 0)
  }

  /** When a is itself blocked and differs from b, the line of sight from a is blocked. */
  lemma BlockedStart(m: GridMap, a: Cell, b: Cell)
    requires m.WellFormed() && m.InBounds(a) && m.InBounds(b)
    requires a != b && m.Cost(a) > 50
    ensures CheckObstacle(m, a, b)
  {
    SampleEndpoints(a, b);
    assert Blocked(m, Sample(a, b, 0));
  }
}

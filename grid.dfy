/** Grid cells, the occupancy-cost map, and the integer helpers shared by every stage of the planner. */
module Grid {

  datatype Option<T> = None | Some(value: T)

  /** A grid cell (x, y); a difference of two cells is also written as a Cell. */
  datatype Cell = Cell(x: int, y: int)

  function Abs(n: int): nat { if n < 0 then -n else n }

  /** The step vector from a to b. */
  function Delta(a: Cell, b: Cell): Cell { Cell(b.x - a.x, b.y - a.y) }

  /** The cell reached from c by the offset (ox, oy). */
  function Offset(c: Cell, ox: int, oy: int): Cell { Cell(c.x + ox, c.y + oy) }

  /** Chebyshev (king-move) distance; 1 means the cells are 8-neighbours. */
  function Chebyshev(a: Cell, b: Cell): nat
  {
    if Abs(b.x - a.x) > Abs(b.y - a.y) then Abs(b.x - a.x) else Abs(b.y - a.y)
  }

  /** The direction into q (from p) differs from the direction out of q (to r). */
  predicate IsTurn(p: Cell, q: Cell, r: Cell) { Delta(p, q) != Delta(q, r) }

  /** One of the eight neighbour offsets expanded by the search. */
  predicate UnitOffset(ox: int, oy: int)
  {
    -1 <= ox <= 1 && -1 <= oy <= 1 && (ox != 0 || oy != 0)
  }

  /** v lies between p and q (in either order). */
  predicate Between(p: int, v: int, q: int) { (p <= v <= q) || (q <= v <= p) }

  /** No two entries of s are equal. */
  predicate Distinct(s: seq<Cell>)
  {
    forall i, j :: 0 <= i < j < |s| ==> s[i] != s[j]
  }

  /** The occupancy grid, indexed cells[x][y]: the first index runs over the width. */
  datatype GridMap = GridMap(cells: seq<seq<int>>, width: int, height: int)
  {
    predicate WellFormed()
    {
      height >= 0 && |cells| == width && forall x :: 0 <= x < |cells| ==> |cells[x]| == height
    }

    predicate InBounds(c: Cell) { 0 <= c.x < width && 0 <= c.y < height }

    function Cost(c: Cell): int
      requires WellFormed() && InBounds(c)
    {
      cells[c.x][c.y]
    }
  }

  /** Python's int(n / d) for d > 0: the exact quotient truncated toward zero. */
  function TruncDiv(n: int, d: int): int
    requires d > 0
  {
    if n >= 0 then n / d else -((-n) / d)
  }

  /** A goal is accepted when it lies on the map and its cost is in the open window (-1, 90). */
  function CheckValid(m: GridMap, goalX: int, goalY: int): (ok: bool)
    requires m.WellFormed()
    ensures ok <==> m.InBounds(Cell(goalX, goalY)) && -1 < m.Cost(Cell(goalX, goalY)) < 90
    ensures ok ==> 0 <= m.Cost(Cell(goalX, goalY)) <= 89
  {
    if goalX > m.width - 1 || goalX < 0 || goalY > m.height - 1 || goalY < 0 then false
    else m.cells[goalX][goalY] < 90 && m.cells[goalX][goalY] > -1
  }

  // ---------------------------------------------------------------------------
  // Division facts used by the line rasteriser.

  lemma DivBounds(n: int, d: int)
    requires n >= 0 && d > 0
    ensures d * (n / d) <= n < d * (n / d) + d
  {
  }

  lemma MulMono(a: int, b: int, c: int)
    requires a <= b && c >= 0
    ensures a * c <= b * c
  {
    assert b * c - a * c == (b - a) * c;
  }

  lemma QuotientBelow(q1: int, q2: int, d: int, bound: int)
    requires d > 0 && d * q2 < d * q1 + bound * d
    ensures q2 < q1 + bound
  {
    if q2 >= q1 + bound {
      MulMono(q1 + bound, q2, d);
    }
  }

  /** Truncating division is exact on multiples of the divisor. */
  lemma TruncDivExact(k: int, d: int)
    requires d > 0
    ensures TruncDiv(k * d, d) == k
  {
    if k >= 0 {
      MulMono(0, k, d);
      var q := (k * d) / d;
      DivBounds(k * d, d);
      QuotientBelow(k, q, d, 1);
      QuotientBelow(q, k, d, 1);
    } else {
      assert -(k * d) == (-k) * d;
      MulMono(0, -k, d);
      var q := ((-k) * d) / d;
      DivBounds((-k) * d, d);
      QuotientBelow(-k, q, d, 1);
      QuotientBelow(q, -k, d, 1);
    }
  }

  lemma DivMono(n1: int, n2: int, d: int)
    requires 0 <= n1 <= n2 && d > 0
    ensures n1 / d <= n2 / d
  {
    DivBounds(n1, d);
    DivBounds(n2, d);
    QuotientBelow(n2 / d, n1 / d, d, 1);
  }

  /** Truncating division is monotone in the dividend. */
  lemma TruncDivMono(n1: int, n2: int, d: int)
    requires n1 <= n2 && d > 0
    ensures TruncDiv(n1, d) <= TruncDiv(n2, d)
  {
    if n1 >= 0 {
      DivMono(n1, n2, d);
    } else if n2 < 0 {
      DivMono(-n2, -n1, d);
    } else {
      DivMono(0, -n1, d);
      DivMono(0, n2, d);
    }
  }

  /** Adding at most one divisor to a non-negative dividend moves the quotient by at most one. */
  lemma FloorStep(n: int, s: int, d: int)
    requires d > 0 && n >= 0 && n + s >= 0 && Abs(s) <= d
    ensures s >= 0 ==> 0 <= (n + s) / d - n / d <= 1
    ensures s < 0 ==> -1 <= (n + s) / d - n / d <= 0
  {
    DivBounds(n, d);
    DivBounds(n + s, d);
    var q1, q2 := n / d, (n + s) / d;
    if s >= 0 {
      DivMono(n, n + s, d);
      QuotientBelow(q1, q2, d, 2);
    } else {
      DivMono(n + s, n, d);
      QuotientBelow(q2, q1, d, 2);
    }
  }

  // ---------------------------------------------------------------------------
  // Counting the cells of the grid.

  function Column(x: int, h: nat): set<Cell>
  {
    set y | 0 <= y < h :: Cell(x, y)
  }

  function Rect(w: nat, h: nat): set<Cell>
  {
    set x, y | 0 <= x < w && 0 <= y < h :: Cell(x, y)
  }

  lemma {:induction false} ColumnSize(x: int, h: nat)
    ensures |Column(x, h)| == h
  {
    if h > 0 {
      ColumnSize(x, h - 1);
      assert Column(x, h) == Column(x, h - 1) + {Cell(x, h - 1)};
    }
  }

  /** The rectangle of width w + 1 is the rectangle of width w plus the disjoint column x = w. */
  lemma RectSplit(w: nat, h: nat)
    ensures Rect(w + 1, h) == Rect(w, h) + Column(w, h)
    ensures Rect(w, h) !! Column(w, h)
  {
    forall c | c in Rect(w + 1, h) ensures c in Rect(w, h) + Column(w, h) {
      if c.x < w {
        assert c in Rect(w, h);
      } else {
        assert c in Column(w, h);
      }
    }
  }

  lemma MulSucc(w: nat, h: nat)
    ensures (w + 1) * h == w * h + h
  {
  }

  lemma {:induction false} RectSize(w: nat, h: nat)
    ensures |Rect(w, h)| == w * h
  {
    if w > 0 {
      RectSize(w - 1, h);
      ColumnSize(w - 1, h);
      RectSplit(w - 1, h);
      MulSucc(w - 1, h);
    }
  }

  function Elements(s: seq<Cell>): set<Cell> { set c | c in s }

  lemma {:induction false} DistinctElements(s: seq<Cell>)
    requires Distinct(s)
    ensures |Elements(s)| == |s|
  {
    if |s| > 0 {
      var t := s[..|s| - 1];
      DistinctElements(t);
      assert Elements(s) == Elements(t) + {s[|s| - 1]};
      assert s[|s| - 1] !in Elements(t);
    }
  }

  /** A duplicate-free list of on-map cells is no longer than the number of cells of the map. */
  lemma DistinctCellsBound(m: GridMap, s: seq<Cell>)
    requires m.WellFormed() && Distinct(s)
    requires forall j :: 0 <= j < |s| ==> m.InBounds(s[j])
    ensures |s| <= m.width * m.height
  {
    DistinctElements(s);
    RectSize(m.width, m.height);
    assert Elements(s) <= Rect(m.width, m.height) by {
      forall c | c in Elements(s) ensures c in Rect(m.width, m.height) {
        var j :| 0 <= j < |s| && s[j] == c;
      }
    }
    assert |Rect(m.width, m.height)| == |Elements(s)| + |Rect(m.width, m.height) - Elements(s)|;
  }

  // ---------------------------------------------------------------------------
  // Sequence reversal (Python's path[::-1]).

  function Reverse(s: seq<Cell>): (r: seq<Cell>)
    ensures |r| == |s|
    ensures forall j :: 0 <= j < |s| ==> r[j] == s[|s| - 1 - j]
  {
    seq(|s|, j requires 0 <= j < |s| => s[|s| - 1 - j])
  }
}

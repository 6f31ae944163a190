/**
 * Path densification (Path_argument): each key-point segment is re-rasterised with
 * the line-of-sight stepping rule, emitting every sample except the segment's end point.
 */
module Densifier {
  import opened Grid
  import opened LineOfSight

  /** The cells emitted for the segment from a to b: samples 0 .. Chebyshev(a, b) - 1. */
  function Segment(a: Cell, b: Cell): (r: seq<Cell>)
    ensures |r| == Chebyshev(a, b)
    ensures forall j :: 0 <= j < |r| ==> r[j] == Sample(a, b, j)
    ensures a != b ==> r[0] == a
    ensures b !in r
  {
    SampleEndpoints(a, b);
    seq(Chebyshev(a, b), j requires 0 <= j < Chebyshev(a, b) => Sample(a, b, j))
  }

  /** The sum of max(|dx|, |dy|) over the consecutive pairs of kp. */
  function TotalSteps(kp: seq<Cell>): nat
    requires |kp| >= 1
  {
    if |kp| == 1 then 0 else TotalSteps(kp[..|kp| - 1]) + Chebyshev(kp[|kp| - 2], kp[|kp| - 1])
  }

  /** The dense path: the segments of consecutive key points, concatenated in order. */
  function Densify(kp: seq<Cell>): (r: seq<Cell>)
    requires |kp| >= 1
    ensures |r| == TotalSteps(kp)
  {
    if |kp| == 1 then [] else Densify(kp[..|kp| - 1]) + Segment(kp[|kp| - 2], kp[|kp| - 1])
  }

  /** Path_argument */
  method PathArgument(path: seq<Cell>) returns (newPath: seq<Cell>)
    requires |path| >= 1
    ensures newPath == Densify(path)
  {
    newPath := [];
    var length := |path|;
    var i := 0;
    while i != length - 1
      invariant 0 <= i <= length - 1
      invariant newPath == Densify(path[..i + 1])
    {
      newPath := AppendSegment(newPath, path[i], path[i + 1]);
      ghost var pre := path[..i + 2];
      assert pre[..i + 1] == path[..i + 1] && pre[i] == path[i] && pre[i + 1] == path[i + 1];
      DensifyLast(pre);
      i := i + 1;
    }
    assert path[..i + 1] == path;
  }

  /** The inner loops of Path_argument: append samples 0 .. Chebyshev(a, b) - 1 of the walk from a toward b. */
  method AppendSegment(prefix: seq<Cell>, a: Cell, b: Cell) returns (r: seq<Cell>)
    ensures r == prefix + Segment(a, b)
  {
    r := prefix;
    ghost var seg := Segment(a, b);
    var j := 0;
    while j < Chebyshev(a, b)
      invariant 0 <= j <= Chebyshev(a, b)
      invariant r == prefix + seg[..j]
    {
      assert seg[..j + 1] == seg[..j] + [Sample(a, b, j)];
      r := r + [Sample(a, b, j)];
      j := j + 1;
    }
    assert seg[..j] == seg;
  }

  /** Densify and TotalSteps unfolded once at the last segment. */
  lemma DensifyLast(kp: seq<Cell>)
    requires |kp| >= 2
    ensures Densify(kp) == Densify(kp[..|kp| - 1]) + Segment(kp[|kp| - 2], kp[|kp| - 1])
    ensures TotalSteps(kp) == TotalSteps(kp[..|kp| - 1]) + Chebyshev(kp[|kp| - 2], kp[|kp| - 1])
  {
  }

  /** The dense path of a prefix of the key points is a prefix of the dense path. */
  lemma {:induction false} DensifyPrefix(kp: seq<Cell>, t: int)
    requires 1 <= t <= |kp|
    ensures Densify(kp[..t]) <= Densify(kp)
  {
    var n := |kp|;
    if t == n {
      assert kp[..t] == kp;
    } else {
      var front := kp[..n - 1];
      DensifyPrefix(front, t);
      assert front[..t] == kp[..t];
      DensifyLast(kp);
    }
  }

  lemma DensifyBlock(kp: seq<Cell>, s: int)
    requires 0 <= s < |kp| - 1
    ensures TotalSteps(kp[..s + 2]) == TotalSteps(kp[..s + 1]) + Chebyshev(kp[s], kp[s + 1])
    ensures TotalSteps(kp[..s + 2]) <= |Densify(kp)|
    ensures Densify(kp)[TotalSteps(kp[..s + 1])..TotalSteps(kp[..s + 2])] == Segment(kp[s], kp[s + 1])
  {
    var pre, pre2 := kp[..s + 1], kp[..s + 2];
    assert pre2[..s + 1] == pre && pre2[s] == kp[s] && pre2[s + 1] == kp[s + 1];
    DensifyLast(pre2);
    DensifyPrefix(kp, s + 2);
    var d, p, q, seg := Densify(kp), Densify(pre2), Densify(pre), Segment(kp[s], kp[s + 1]);
    assert p == q + seg && p <= d;
    assert |q| == TotalSteps(pre) && |p| == TotalSteps(pre2);
    assert d[|q|..|p|] == p[|q|..] == seg;
  }

  /** Every cell of the dense path lies on the map when every key point does. */
  lemma {:induction false} DensifyInBounds(m: GridMap, kp: seq<Cell>)
    requires |kp| >= 1 && forall s :: 0 <= s < |kp| ==> m.InBounds(kp[s])
    ensures forall j :: 0 <= j < |Densify(kp)| ==> m.InBounds(Densify(kp)[j])
  {
    var n := |kp|;
    if n > 1 {
      DensifyInBounds(m, kp[..n - 1]);
    }
  }

  /**
   * d walks from first toward last by 8-neighbour steps, leaving last itself out: it is empty
   * only when first == last, otherwise it starts at first and its final cell neighbours last.
   */
  predicate Walk(d: seq<Cell>, first: Cell, last: Cell)
  {
    && (|d| == 0 ==> first == last)
    && (|d| >= 1 ==> d[0] == first && Chebyshev(d[|d| - 1], last) == 1)
    && (forall j :: 0 <= j < |d| - 1 ==> Chebyshev(d[j], d[j + 1]) == 1)
  }

  /** The segment from a to b is such a walk, empty exactly when a == b. */
  lemma SegmentWalk(a: Cell, b: Cell)
    requires a.x >= 0 && a.y >= 0 && b.x >= 0 && b.y >= 0
    ensures Walk(Segment(a, b), a, b)
    ensures |Segment(a, b)| == 0 <==> a == b
  {
    var steps := Chebyshev(a, b);
    SampleEndpoints(a, b);
    forall j | 0 <= j < steps ensures Chebyshev(Sample(a, b, j), Sample(a, b, j + 1)) == 1 {
      SampleAdjacent(a, b, j);
    }
  }

  /** A walk from p to q followed by a walk from q to r is a walk from p to r. */
  lemma WalkJoin(u: seq<Cell>, v: seq<Cell>, p: Cell, q: Cell, r: Cell)
    requires Walk(u, p, q) && Walk(v, q, r)
    ensures Walk(u + v, p, r)
  {
    var d := u + v;
    if |u| == 0 {
      assert d == v;
    } else if |v| == 0 {
      assert d == u;
    } else {
      assert d[0] == u[0] && d[|d| - 1] == v[|v| - 1];
      forall j | 0 <= j < |d| - 1 ensures Chebyshev(d[j], d[j + 1]) == 1 {
        if j < |u| - 1 {
          assert d[j] == u[j] && d[j + 1] == u[j + 1];
        } else if j == |u| - 1 {
          assert d[j] == u[|u| - 1] && d[j + 1] == v[0];
        } else {
          assert d[j] == v[j - |u|] && d[j + 1] == v[j + 1 - |u|];
        }
      }
    }
  }

  /**
   * With key points on cells of non-negative coordinates, the dense path is a walk from the
   * first key point to the last one: each cell is an 8-neighbour of the next, it starts at the
   * first key point unless it is empty, its last cell neighbours the final key point, which is
   * itself left out, and it is empty only when the first and last key points coincide.
   */
  lemma {:induction false} DensifyWalk(kp: seq<Cell>)
    requires |kp| >= 2
    requires forall s :: 0 <= s < |kp| ==> kp[s].x >= 0 && kp[s].y >= 0
    ensures Walk(Densify(kp), kp[0], kp[|kp| - 1])
  {
    var n := |kp|;
    var a, b := kp[n - 2], kp[n - 1];
    SegmentWalk(a, b);
    DensifyLast(kp);
    var front := kp[..n - 1];
    if n > 2 {
      DensifyWalk(front);
      assert front[0] == kp[0] && front[|front| - 1] == a;
      WalkJoin(Densify(front), Segment(a, b), kp[0], a, b);
    } else {
      assert front == [a];
      assert Densify(front) == [];
    }
  }
}

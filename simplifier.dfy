/**
 * Path simplification: key-point extraction (get_key_point) and string-pulling
 * (Path_smoothing) over a list of grid cells.
 */
module Simplifier {
  import opened Grid
  import opened LineOfSight

  /** Strictly increasing index lists describe subsequences. */
  predicate Increasing(idx: seq<int>)
  {
    forall j, k :: 0 <= j < k < |idx| ==> idx[j] < idx[k]
  }

  /** sub is the subsequence of s at positions idx. */
  ghost predicate Picks(sub: seq<Cell>, s: seq<Cell>, idx: seq<int>)
  {
    && |idx| == |sub|
    && Increasing(idx)
    && (forall j :: 0 <= j < |idx| ==> 0 <= idx[j] < |s| && sub[j] == s[idx[j]])
  }

  /** The cells of s at positions idx, in that order. */
  function Pick(s: seq<Cell>, idx: seq<int>): (r: seq<Cell>)
    requires forall j :: 0 <= j < |idx| ==> 0 <= idx[j] < |s|
    ensures |r| == |idx| && forall j :: 0 <= j < |idx| ==> r[j] == s[idx[j]]
  {
    seq(|idx|, j requires 0 <= j < |idx| => s[idx[j]])
  }

  /** The direction into path[k] differs from the direction out of it. */
  predicate Turn(path: seq<Cell>, k: int)
    requires 1 <= k < |path| - 1
  {
    IsTurn(path[k - 1], path[k], path[k + 1])
  }

  /** The turning indices k with 1 <= k < hi, in increasing order. */
  function TurnsBelow(path: seq<Cell>, hi: int): (r: seq<int>)
    requires hi <= 1 || hi <= |path| - 1
    ensures Increasing(r)
    ensures forall j :: 0 <= j < |r| ==> 1 <= r[j] < hi
    ensures forall k :: 1 <= k < hi ==> (k in r <==> Turn(path, k))
    decreases hi
  {
    if hi <= 1 then []
    else TurnsBelow(path, hi - 1) + (if Turn(path, hi - 1) then [hi - 1] else [])
  }

  /**
   * The positions get_key_point keeps: the first, the last, and every turning index
   * k with 1 <= k <= |path| - 3. Index |path| - 2 is never examined.
   */
  function KeyIndices(path: seq<Cell>): (r: seq<int>)
    requires |path| >= 1
    ensures |r| >= 2 && r[0] == 0 && r[|r| - 1] == |path| - 1
    ensures forall j :: 0 <= j < |r| ==> 0 <= r[j] < |path|
    ensures |path| >= 2 ==> Increasing(r)
    ensures forall k :: 0 <= k < |path| ==>
      (k in r <==> k == 0 || k == |path| - 1 || (1 <= k <= |path| - 3 && Turn(path, k)))
  {
    [0] + TurnsBelow(path, |path| - 2) + [|path| - 1]
  }

  /** The key points of a path, as get_key_point returns them. */
  function KeyPoints(path: seq<Cell>): (r: seq<Cell>)
    requires |path| >= 1
    ensures |r| >= 2 && r[0] == path[0] && r[|r| - 1] == path[|path| - 1]
    ensures |path| >= 2 ==> Picks(r, path, KeyIndices(path))
    ensures |path| == 1 ==> r == [path[0], path[0]]
    ensures |path| == 2 ==> r == path
  {
    Pick(path, KeyIndices(path))
  }

  lemma PickSnoc(s: seq<Cell>, idx: seq<int>, k: int)
    requires forall j :: 0 <= j < |idx| ==> 0 <= idx[j] < |s|
    requires 0 <= k < |s|
    ensures Pick(s, idx + [k]) == Pick(s, idx) + [s[k]]
  {
  }

  lemma PickKeys(s: seq<Cell>, turns: seq<int>)
    requires |s| >= 1 && forall j :: 0 <= j < |turns| ==> 0 <= turns[j] < |s|
    ensures Pick(s, [0] + turns + [|s| - 1]) == [s[0]] + Pick(s, turns) + [s[|s| - 1]]
  {
  }

  /** The cells at the turning indices below hi, in order: Pick(path, TurnsBelow(path, hi)) built cell by cell. */
  function TurnCells(path: seq<Cell>, hi: int): seq<Cell>
    requires hi <= 1 || hi <= |path| - 1
    decreases hi
  {
    if hi <= 1 then []
    else TurnCells(path, hi - 1) + (if Turn(path, hi - 1) then [path[hi - 1]] else [])
  }

  lemma {:induction false} TurnCellsPick(path: seq<Cell>, hi: int)
    requires hi <= 1 || hi <= |path| - 1
    ensures TurnCells(path, hi) == Pick(path, TurnsBelow(path, hi))
    decreases hi
  {
    if hi > 1 {
      TurnCellsPick(path, hi - 1);
      var t := TurnsBelow(path, hi - 1);
      if Turn(path, hi - 1) {
        PickSnoc(path, t, hi - 1);
      }
    }
  }

  /** The key points are the first cell, the turning cells below |path| - 2, and the last cell. */
  lemma KeyPointsUnfold(path: seq<Cell>)
    requires |path| >= 1
    ensures KeyPoints(path) == [path[0]] + TurnCells(path, |path| - 2) + [path[|path| - 1]]
  {
    KeyPointsPick(path);
    TurnCellsPick(path, |path| - 2);
  }

  lemma KeyPointsPick(path: seq<Cell>)
    requires |path| >= 1
    ensures KeyPoints(path) == [path[0]] + Pick(path, TurnsBelow(path, |path| - 2)) + [path[|path| - 1]]
  {
    PickKeys(path, TurnsBelow(path, |path| - 2));
  }

  /** get_key_point */
  method GetKeyPoint(path: seq<Cell>) returns (newPath: seq<Cell>)
    requires |path| >= 1
    ensures newPath == KeyPoints(path)
  {
    newPath := [path[0]];
    var n := |path|;
    var i := 2;
    while i < n - 1
      invariant 2 <= i && (n >= 3 ==> i <= n - 1) && (n < 3 ==> i == 2)
      invariant newPath == [path[0]] + TurnCells(path, i - 1)
    {
      var vector1 := Delta(path[i - 2], path[i - 1]);
      var vector2 := Delta(path[i - 1], path[i]);
      if vector1 != vector2 {
        newPath := newPath + [path[i - 1]];
      }
      i := i + 1;
    }
    assert TurnCells(path, i - 1) == TurnCells(path, n - 2);
    newPath := newPath + [path[n - 1]];
    KeyPointsUnfold(path);
  }

  /** An increasing list of indices in [0, hi) has at most hi entries. */
  lemma {:induction false} IncreasingBound(idx: seq<int>, hi: int)
    requires 0 <= hi && Increasing(idx) && forall j :: 0 <= j < |idx| ==> 0 <= idx[j] < hi
    ensures |idx| <= hi
    decreases |idx|
  {
    if |idx| > 0 {
      var front, last := idx[..|idx| - 1], idx[|idx| - 1];
      assert forall j :: 0 <= j < |front| ==> 0 <= front[j] < last by {
        forall j | 0 <= j < |front| ensures 0 <= front[j] < last {
          assert front[j] == idx[j];
        }
      }
      IncreasingBound(front, last);
    }
  }

  /**
   * get_key_point drops at least one point of every path of three or more points, since
   * index |q| - 2 is never kept: applied to its own output of three or more points it
   * shrinks it again, so it is not idempotent.
   */
  lemma KeyPointsShrinks(q: seq<Cell>)
    requires |q| >= 3
    ensures |KeyPoints(q)| < |q|
  {
    var n, idx := |q|, KeyIndices(q);
    assert n - 2 !in idx;
    var front := idx[..|idx| - 1];
    forall j | 0 <= j < |front| ensures 0 <= front[j] < n - 2 {
      assert front[j] == idx[j] && idx[j] < idx[|idx| - 1];
      assert idx[j] in idx;
    }
    IncreasingBound(front, n - 2);
  }

  lemma KeyPointsNotIdempotent(q: seq<Cell>)
    requires |q| >= 1 && |KeyPoints(q)| >= 3
    ensures KeyPoints(KeyPoints(q)) != KeyPoints(q)
  {
    KeyPointsShrinks(KeyPoints(q));
  }

  /**
   * The outcome of string-pulling the key points kp into r: r keeps kp's first and
   * last point, picks the rest in order, and every key point kp[s] beyond the one after
   * r[j], up to r[j + 1], was checked clear of obstacles from r[j] (each such check is
   * what popped the point before kp[s]).
   */
  ghost predicate Smoothed(m: GridMap, kp: seq<Cell>, r: seq<Cell>, idx: seq<int>)
    requires m.WellFormed() && forall j :: 0 <= j < |kp| ==> m.InBounds(kp[j])
  {
    && Picks(r, kp, idx)
    && |r| >= 2
    && idx[0] == 0 && idx[|idx| - 1] == |kp| - 1
    && (forall j, s {:trigger CheckObstacle(m, r[j], kp[s])} ::
          0 <= j < |r| - 1 && idx[j] + 1 < s <= idx[j + 1] ==> !CheckObstacle(m, r[j], kp[s]))
  }

  /**
   * The first n inner points of r were kept for a reason: the shortcut from r[j] to the
   * key point right after r[j + 1] is blocked, so path.pop(j + 1) never happened.
   */
  ghost predicate Kept(m: GridMap, kp: seq<Cell>, r: seq<Cell>, idx: seq<int>, n: int)
    requires m.WellFormed() && forall j :: 0 <= j < |kp| ==> m.InBounds(kp[j])
    requires Smoothed(m, kp, r, idx) && n <= |r| - 2
  {
    forall j :: 0 <= j < n ==> KeptAt(m, kp, r, idx, j)
  }

  /** r[j + 1] was kept: the shortcut from r[j] to the key point right after r[j + 1] is blocked. */
  ghost predicate KeptAt(m: GridMap, kp: seq<Cell>, r: seq<Cell>, idx: seq<int>, j: int)
    requires m.WellFormed() && forall t :: 0 <= t < |kp| ==> m.InBounds(kp[t])
    requires Smoothed(m, kp, r, idx) && 0 <= j < |r| - 2
  {
    CheckObstacle(m, r[j], kp[idx[j + 1] + 1])
  }

  /** The indices of r from position i on are consecutive in kp: that part of kp is still untouched. */
  predicate Contiguous(idx: seq<int>, i: int)
  {
    0 <= i < |idx| && forall t :: i <= t < |idx| ==> idx[t] == idx[i] + (t - i)
  }

  /** Dropping position k + 1 of a picked subsequence keeps it a picked subsequence. */
  lemma DropPicked(r: seq<Cell>, kp: seq<Cell>, idx: seq<int>, k: int)
    requires Picks(r, kp, idx) && 0 <= k && k + 1 < |r|
    ensures Picks(r[..k + 1] + r[k + 2..], kp, idx[..k + 1] + idx[k + 2..])
  {
    var r', idx' := r[..k + 1] + r[k + 2..], idx[..k + 1] + idx[k + 2..];
    forall j | 0 <= j < |idx'|
      ensures idx'[j] == (if j <= k then idx[j] else idx[j + 1])
      ensures r'[j] == (if j <= k then r[j] else r[j + 1])
    {
    }
  }

  /** The key points themselves are a (trivially) smoothed path. */
  lemma SmoothedStart(m: GridMap, kp: seq<Cell>)
    requires m.WellFormed() && forall j :: 0 <= j < |kp| ==> m.InBounds(kp[j])
    requires |kp| >= 2
    ensures Smoothed(m, kp, kp, seq(|kp|, j => j))
  {
  }

  /**
   * Popping r[k + 1], when r[k + 2] is the key point right after it and the shortcut
   * r[k] -> r[k + 2] was found clear, keeps the path smoothed.
   */
  lemma PopClear(m: GridMap, kp: seq<Cell>, r: seq<Cell>, idx: seq<int>, k: int)
    requires m.WellFormed() && forall j :: 0 <= j < |kp| ==> m.InBounds(kp[j])
    requires Smoothed(m, kp, r, idx)
    requires 0 <= k && k + 2 < |r| && idx[k + 2] == idx[k + 1] + 1
    requires !CheckObstacle(m, r[k], r[k + 2])
    ensures Smoothed(m, kp, r[..k + 1] + r[k + 2..], idx[..k + 1] + idx[k + 2..])
  {
    DropPicked(r, kp, idx, k);
    var r', idx' := r[..k + 1] + r[k + 2..], idx[..k + 1] + idx[k + 2..];
    forall j, s | 0 <= j < |r'| - 1 && idx'[j] + 1 < s <= idx'[j + 1]
      ensures !CheckObstacle(m, r'[j], kp[s])
    {
      if j < k {
        assert r'[j] == r[j] && idx'[j] == idx[j] && idx'[j + 1] == idx[j + 1];
      } else if j == k {
        assert r'[j] == r[k] && idx'[j] == idx[k] && idx'[j + 1] == idx[k + 2];
        if s == idx[k + 2] {
          assert kp[s] == r[k + 2];
        } else {
          assert idx[k] + 1 < s <= idx[k + 1];
        }
      } else {
        assert r'[j] == r[j + 1] && idx'[j] == idx[j + 1] && idx'[j + 1] == idx[j + 2];
      }
    }
  }

  /** Kept over the first n inner points only reads r and idx up to n, so a change past n keeps it. */
  lemma KeptPrefix(m: GridMap, kp: seq<Cell>, r: seq<Cell>, idx: seq<int>, r': seq<Cell>, idx': seq<int>, n: int)
    requires m.WellFormed() && forall j :: 0 <= j < |kp| ==> m.InBounds(kp[j])
    requires Smoothed(m, kp, r, idx) && Smoothed(m, kp, r', idx')
    requires 0 <= n <= |r| - 2 && n <= |r'| - 2 && Kept(m, kp, r, idx, n)
    requires forall j :: 0 <= j <= n ==> r'[j] == r[j] && idx'[j] == idx[j]
    ensures Kept(m, kp, r', idx', n)
  {
    forall j | 0 <= j < n ensures KeptAt(m, kp, r', idx', j) {
      assert KeptAt(m, kp, r, idx, j);
      assert r'[j] == r[j] && idx'[j + 1] == idx[j + 1];
    }
  }

  /**
   * One pass of the inner loop: the shortcut r[i] -> r[i + 2] is clear, so r[i + 1] is popped;
   * the result is still smoothed, untouched past i + 1, and the earlier kept points keep their reasons.
   */
  lemma PopStep(m: GridMap, kp: seq<Cell>, r: seq<Cell>, idx: seq<int>, i: int)
    requires m.WellFormed() && forall j :: 0 <= j < |kp| ==> m.InBounds(kp[j])
    requires Smoothed(m, kp, r, idx) && 0 <= i <= |r| - 3
    requires Contiguous(idx, i + 1) && Kept(m, kp, r, idx, i)
    requires !CheckObstacle(m, r[i], r[i + 2])
    ensures Smoothed(m, kp, r[..i + 1] + r[i + 2..], idx[..i + 1] + idx[i + 2..])
    ensures Contiguous(idx[..i + 1] + idx[i + 2..], i + 1)
    ensures Kept(m, kp, r[..i + 1] + r[i + 2..], idx[..i + 1] + idx[i + 2..], i)
  {
    PopClear(m, kp, r, idx, i);
    var r', idx' := r[..i + 1] + r[i + 2..], idx[..i + 1] + idx[i + 2..];
    forall t | i + 1 <= t < |idx'| ensures idx'[t] == idx'[i + 1] + (t - (i + 1)) {
      assert idx'[t] == idx[t + 1] && idx'[i + 1] == idx[i + 2];
    }
    KeptPrefix(m, kp, r, idx, r', idx', i);
  }

  /** The inner loop stops at a blocked shortcut r[i] -> r[i + 2], which is the reason r[i + 1] is kept. */
  lemma BlockedStep(m: GridMap, kp: seq<Cell>, r: seq<Cell>, idx: seq<int>, i: int)
    requires m.WellFormed() && forall j :: 0 <= j < |kp| ==> m.InBounds(kp[j])
    requires Smoothed(m, kp, r, idx) && 0 <= i <= |r| - 3
    requires Contiguous(idx, i + 1) && Kept(m, kp, r, idx, i)
    requires CheckObstacle(m, r[i], r[i + 2])
    ensures Kept(m, kp, r, idx, i + 1)
  {
    assert idx[i + 2] == idx[i + 1] + 1;
    assert r[i + 2] == kp[idx[i + 1] + 1];
    assert KeptAt(m, kp, r, idx, i);
  }

  /** Key points of an on-map path are on the map. */
  lemma KeyPointsInBounds(m: GridMap, path: seq<Cell>)
    requires m.WellFormed() && |path| >= 1
    requires forall j :: 0 <= j < |path| ==> m.InBounds(path[j])
    ensures forall j :: 0 <= j < |KeyPoints(path)| ==> m.InBounds(KeyPoints(path)[j])
  {
    var kp := KeyPoints(path);
    forall j | 0 <= j < |kp| ensures m.InBounds(kp[j]) {
      if |path| >= 2 {
        assert kp[j] == path[KeyIndices(path)[j]];
      }
    }
  }

  /** The string-pulling loops of Path_smoothing, run on the key points kp. */
  method Pull(m: GridMap, kp: seq<Cell>) returns (r: seq<Cell>, ghost idx: seq<int>)
    requires m.WellFormed() && |kp| >= 2
    requires forall j :: 0 <= j < |kp| ==> m.InBounds(kp[j])
    ensures Smoothed(m, kp, r, idx)
    ensures Kept(m, kp, r, idx, |r| - 2)
    ensures |kp| == 2 ==> r == kp
  {
    r := kp;
    idx := seq(|r|, j => j);
    SmoothedStart(m, kp);
    var i := 0;
    if |r| == 2 {
      return;
    }
    while true
      invariant Smoothed(m, kp, r, idx)
      invariant 0 <= i <= |r| - 3
      invariant Contiguous(idx, i) && Kept(m, kp, r, idx, i)
      decreases |r| - i
    {
      while !CheckObstacle(m, r[i], r[i + 2])
        invariant Smoothed(m, kp, r, idx)
        invariant 0 <= i <= |r| - 3
        invariant Contiguous(idx, i + 1) && Kept(m, kp, r, idx, i)
        decreases |r|
      {
        PopStep(m, kp, r, idx, i);
        r := r[..i + 1] + r[i + 2..];
        idx := idx[..i + 1] + idx[i + 2..];
        if i == |r| - 2 {
          break;
        }
      }
      if i < |r| - 2 {
        BlockedStep(m, kp, r, idx, i);
      }
      i := i + 1;
      if i > |r| - 3 {
        break;
      }
    }
  }

  /** Path_smoothing */
  method PathSmoothing(m: GridMap, path: seq<Cell>) returns (r: seq<Cell>, ghost idx: seq<int>)
    requires m.WellFormed() && |path| >= 1
    requires forall j :: 0 <= j < |path| ==> m.InBounds(path[j])
    ensures forall j :: 0 <= j < |KeyPoints(path)| ==> m.InBounds(KeyPoints(path)[j])
    ensures Smoothed(m, KeyPoints(path), r, idx)
    ensures Kept(m, KeyPoints(path), r, idx, |r| - 2)
    ensures r[0] == path[0] && r[|r| - 1] == path[|path| - 1]
    ensures |KeyPoints(path)| == 2 ==> r == KeyPoints(path)
  {
    KeyPointsInBounds(m, path);
    var keys := GetKeyPoint(path);
    r, idx := Pull(m, keys);
    assert r[0] == keys[0] && r[|r| - 1] == keys[|keys| - 1];
  }


  /**
   * A smoothing r' that agrees with r at j cannot skip past r[j + 1]: the key point after
   * r[j + 1] is blocked from r[j], and every point r' skips was checked clear.
   */
  lemma NotPast(m: GridMap, kp: seq<Cell>, r: seq<Cell>, idx: seq<int>, r': seq<Cell>, idx': seq<int>, j: int)
    requires m.WellFormed() && forall t :: 0 <= t < |kp| ==> m.InBounds(kp[t])
    requires Smoothed(m, kp, r, idx) && Kept(m, kp, r, idx, |r| - 2) && Smoothed(m, kp, r', idx')
    requires 0 <= j && j + 1 < |r| && j + 1 < |r'| && idx[j] == idx'[j]
    ensures idx'[j + 1] <= idx[j + 1]
  {
    if j < |r| - 2 {
      assert r'[j] == r[j];
      assert KeptAt(m, kp, r, idx, j);
    }
  }

  /** Two smoothings of the same key points that agree at position j also agree at j + 1. */
  lemma SmoothedStep(m: GridMap, kp: seq<Cell>, r: seq<Cell>, idx: seq<int>, r': seq<Cell>, idx': seq<int>, j: int)
    requires m.WellFormed() && forall t :: 0 <= t < |kp| ==> m.InBounds(kp[t])
    requires Smoothed(m, kp, r, idx) && Kept(m, kp, r, idx, |r| - 2)
    requires Smoothed(m, kp, r', idx') && Kept(m, kp, r', idx', |r'| - 2)
    requires 0 <= j && j + 1 < |r| && j + 1 < |r'| && idx[j] == idx'[j]
    ensures idx[j + 1] == idx'[j + 1]
  {
    NotPast(m, kp, r, idx, r', idx', j);
    NotPast(m, kp, r', idx', r, idx, j);
  }

  lemma {:induction false} SmoothedPrefix(m: GridMap, kp: seq<Cell>, r: seq<Cell>, idx: seq<int>, r': seq<Cell>, idx': seq<int>, n: int)
    requires m.WellFormed() && forall t :: 0 <= t < |kp| ==> m.InBounds(kp[t])
    requires Smoothed(m, kp, r, idx) && Kept(m, kp, r, idx, |r| - 2)
    requires Smoothed(m, kp, r', idx') && Kept(m, kp, r', idx', |r'| - 2)
    requires 1 <= n <= |r| && n <= |r'|
    ensures forall j :: 0 <= j < n ==> idx[j] == idx'[j]
    decreases n
  {
    if n > 1 {
      SmoothedPrefix(m, kp, r, idx, r', idx', n - 1);
      SmoothedStep(m, kp, r, idx, r', idx', n - 2);
    }
  }

  /**
   * Smoothed and Kept pin the result down: at most one path meets both, so they state
   * exactly what Path_smoothing returns.
   */
  lemma SmoothingUnique(m: GridMap, kp: seq<Cell>, r: seq<Cell>, idx: seq<int>, r': seq<Cell>, idx': seq<int>)
    requires m.WellFormed() && forall t :: 0 <= t < |kp| ==> m.InBounds(kp[t])
    requires Smoothed(m, kp, r, idx) && Kept(m, kp, r, idx, |r| - 2)
    requires Smoothed(m, kp, r', idx') && Kept(m, kp, r', idx', |r'| - 2)
    ensures r == r' && idx == idx'
  {
    var n := if |r| <= |r'| then |r| else |r'|;
    SmoothedPrefix(m, kp, r, idx, r', idx', n);
    // both reach the last key point at the same position, and neither goes on past it
    if |r| <= |r'| {
      assert idx'[|r| - 1] == |kp| - 1;
    }
    if |r'| <= |r| {
      assert idx[|r'| - 1] == |kp| - 1;
    }
    assert |r| == |r'|;
    assert idx == idx';
    forall j | 0 <= j < |r| ensures r[j] == r'[j] {
      assert r[j] == kp[idx[j]];
    }
  }

  /**
   * Path_smoothing is not idempotent either: run again on an output r of three or more points,
   * it starts from KeyPoints(r), which is shorter than r, so any second result r2 is shorter
   * than r.
   */
  lemma SmoothingNotIdempotent(m: GridMap, r: seq<Cell>, r2: seq<Cell>, idx2: seq<int>)
    requires m.WellFormed() && |r| >= 3
    requires forall j :: 0 <= j < |KeyPoints(r)| ==> m.InBounds(KeyPoints(r)[j])
    requires Smoothed(m, KeyPoints(r), r2, idx2)
    ensures |r2| < |r|
  {
    KeyPointsShrinks(r);
    IncreasingBound(idx2, |KeyPoints(r)|);
  }
}

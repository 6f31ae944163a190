/**
 * Search nodes and the frontier operations of one search direction: minimum
 * selection, open/closed lookups, one-neighbour relaxation, the turn penalty,
 * and the parent chains used to reconstruct a path.
 *
 * A side's nodes live in its two lists. A closed node is never changed again and
 * every parent is the node that was closed last when the link was made, so a
 * parent link is an index into the same side's closed list (that list is the arena).
 */
module Frontier {
  import opened Grid

  /** Node_start / Node_end: position, parent link (closed-list index), and the costs g, h, f. */
  datatype Node = Node(pos: Cell, parent: Option<nat>, g: real, h: real, f: real)

  /** A search root: no parent and g = h = f = 0. */
  function Root(c: Cell): (r: Node)
    ensures r.pos == c && r.parent.None? && r.g == 0.0 && r.f == r.g + r.h == 0.0
  {
    Node(c, None, 0.0, 0.0, 0.0)
  }

  /** The positions of a node list, in order. */
  function Positions(list: seq<Node>): (r: seq<Cell>)
    ensures |r| == |list| && forall j :: 0 <= j < |list| ==> r[j] == list[j].pos
  {
    seq(|list|, j requires 0 <= j < |list| => list[j].pos)
  }

  /** np.sqrt(2), the cost of a diagonal step, written as the nearest double. */
  const DiagonalStep: real := 1.4142135623730951

  /** np.sqrt(ox * ox + oy * oy) for a unit neighbour offset. */
  function StepCost(ox: int, oy: int): (r: real)
    ensures r >= 1.0
    ensures UnitOffset(ox, oy) ==> -0.000000000000001 < r * r - (ox * ox + oy * oy) as real < 0.000000000000001
  {
    if ox != 0 && oy != 0 then DiagonalStep else 1.0
  }

  /** The heuristic without the turn penalty: Manhattan distance to the opposite root plus 0.9 times the cell cost. */
  function Heuristic(m: GridMap, pos: Cell, anchor: Cell): (r: real)
    requires m.WellFormed() && m.InBounds(pos)
    ensures m.Cost(pos) >= 0 ==> r >= (Abs(pos.x - anchor.x) + Abs(pos.y - anchor.y)) as real
    ensures pos == anchor ==> r == (m.Cost(pos) as real) * 0.9
  {
    (Abs(pos.x - anchor.x) + Abs(pos.y - anchor.y)) as real + (m.Cost(pos) as real) * 0.9
  }

  /** k is the first index of list whose f is minimal, the node getMinNode picks. */
  predicate FirstMinNode(list: seq<Node>, k: int)
  {
    && 0 <= k < |list|
    && (forall j :: 0 <= j < |list| ==> list[k].f <= list[j].f)
    && (forall j :: 0 <= j < k ==> list[j].f > list[k].f)
  }

  /** getMinNode: the first node of the list whose f is minimal. */
  method GetMinNode(list: seq<Node>) returns (k: nat)
    requires |list| > 0
    ensures FirstMinNode(list, k)
  {
    k := 0;
    for i := 0 to |list|
      invariant k < |list| && k <= i
      invariant forall j :: 0 <= j < i ==> list[k].f <= list[j].f
      invariant forall j :: 0 <= j < k ==> list[j].f > list[k].f
    {
      if list[i].f < list[k].f {
        k := i;
      }
    }
  }

  /** pointInCloseList */
  function PointInCloseList(pos: Cell, closed: seq<Node>): (r: bool)
    ensures r <==> pos in Positions(closed)
  {
    if |closed| == 0 then false
    else if closed[0].pos == pos then true
    else
      assert Positions(closed) == [closed[0].pos] + Positions(closed[1..]);
      PointInCloseList(pos, closed[1..])
  }

  /** pointInOpenList: the index of the first node at pos, if any. */
  function PointInOpenList(pos: Cell, list: seq<Node>): (r: Option<nat>)
    ensures r.Some? ==> r.value < |list| && list[r.value].pos == pos
    ensures r.Some? ==> forall j :: 0 <= j < r.value ==> list[j].pos != pos
    ensures r.None? <==> pos !in Positions(list)
  {
    if |list| == 0 then None
    else if list[0].pos == pos then Some(0)
    else
      assert Positions(list) == [list[0].pos] + Positions(list[1..]);
      match PointInOpenList(pos, list[1..])
      case None => None
      case Some(k) => Some(k + 1)
  }

  /**
   * check_direction: 0 when the parent is a root or the step parent -> child repeats
   * the step grandparent -> parent; 5 at a change of direction.
   */
  function CheckDirection(child: Cell, parent: Node, closed: seq<Node>): (penalty: int)
    requires parent.parent.Some? ==> parent.parent.value < |closed|
    ensures penalty == 0 || penalty == 5
    ensures penalty == 5 <==> parent.parent.Some? && IsTurn(closed[parent.parent.value].pos, parent.pos, child)
  {
    match parent.parent
    case None => 0
    case Some(gi) =>
      var grand := closed[gi];
      var vector1 := Delta(parent.pos, child);
      var vector2 := Delta(grand.pos, parent.pos);
      if vector1 == vector2 then 0 else 5
  }

  /**
   * search_start / search_end: relax the neighbour at offset (ox, oy) of the closed
   * node closed[from], estimating toward the opposite side's root `anchor`; the
   * result is the new open list. RelaxSpec states what it does.
   */
  function Relax(m: GridMap, anchor: Cell, open: seq<Node>, closed: seq<Node>, from: nat, ox: int, oy: int): (r: seq<Node>)
    requires m.WellFormed() && from < |closed|
    requires closed[from].parent.Some? ==> closed[from].parent.value < |closed|
    ensures |open| <= |r| <= |open| + 1
  {
    var minF := closed[from];
    var pos := Offset(minF.pos, ox, oy);
    if pos.x > m.width - 1 || pos.x < 0 || pos.y > m.height - 1 || pos.y < 0 then open
    else if PointInCloseList(pos, closed) then open
    else
      match PointInOpenList(pos, open)
      case None =>
        var g := minF.g + StepCost(ox, oy);
        var turnCost := CheckDirection(pos, minF, closed);
        var h := Heuristic(m, pos, anchor) + turnCost as real;
        open + [Node(pos, Some(from), g, h, g + h)]
      case Some(k) =>
        var actionCost := StepCost(ox, oy);
        if minF.g + actionCost < open[k].g then
          open[k := open[k].(g := minF.g + actionCost, parent := Some(from))]
        else open
  }

  /** The outcome of one relaxation, case by case. */
  lemma RelaxSpec(m: GridMap, anchor: Cell, open: seq<Node>, closed: seq<Node>, from: nat, ox: int, oy: int)
    requires m.WellFormed() && from < |closed|
    requires closed[from].parent.Some? ==> closed[from].parent.value < |closed|
    // Off the map or already closed: nothing changes.
    ensures var r, pos := Relax(m, anchor, open, closed, from, ox, oy), Offset(closed[from].pos, ox, oy);
      !m.InBounds(pos) || pos in Positions(closed) ==> r == open
    // A new position is appended, and only then.
    ensures var r, pos := Relax(m, anchor, open, closed, from, ox, oy), Offset(closed[from].pos, ox, oy);
      Positions(r) == if m.InBounds(pos) && pos !in Positions(closed) && pos !in Positions(open)
                      then Positions(open) + [pos] else Positions(open)
    // The appended node: parent from, g one step more than the parent's, h the heuristic plus the turn penalty, f = g + h.
    ensures var r, pos := Relax(m, anchor, open, closed, from, ox, oy), Offset(closed[from].pos, ox, oy);
      |r| > |open| ==>
        var g := closed[from].g + StepCost(ox, oy);
        && m.InBounds(pos)
        && r[|open|].parent == Some(from) && r[|open|].g == g
        && r[|open|].h == Heuristic(m, pos, anchor) + CheckDirection(pos, closed[from], closed) as real
        && r[|open|].f == g + r[|open|].h
    // Existing nodes keep position, h and f (f goes stale); g never grows.
    ensures var r := Relax(m, anchor, open, closed, from, ox, oy);
      forall j :: 0 <= j < |open| ==>
        r[j].pos == open[j].pos && r[j].h == open[j].h && r[j].f == open[j].f && r[j].g <= open[j].g
    // A node that changes is the open node at pos, and only when the new g is strictly smaller
    // (an equal g keeps the old parent); it is lowered to that g with parent from.
    ensures var r, pos := Relax(m, anchor, open, closed, from, ox, oy), Offset(closed[from].pos, ox, oy);
      forall j :: 0 <= j < |open| && r[j] != open[j] ==>
        && closed[from].g + StepCost(ox, oy) < open[j].g
        && r[j].pos == pos && r[j].parent == Some(from) && r[j].g == closed[from].g + StepCost(ox, oy)
    // ... and it does change whenever the new g is strictly smaller.
    ensures var r, pos := Relax(m, anchor, open, closed, from, ox, oy), Offset(closed[from].pos, ox, oy);
      forall j :: (0 <= j < |open| && open[j].pos == pos && m.InBounds(pos) && pos !in Positions(closed) &&
                   closed[from].g + StepCost(ox, oy) < open[j].g && (forall i :: 0 <= i < j ==> open[i].pos != pos)) ==>
        r[j].g == closed[from].g + StepCost(ox, oy) && r[j].parent == Some(from)
  {
    var pos := Offset(closed[from].pos, ox, oy);
    if m.InBounds(pos) && !PointInCloseList(pos, closed) {
      match PointInOpenList(pos, open)
      case None =>
        var r := Relax(m, anchor, open, closed, from, ox, oy);
        assert Positions(r) == Positions(open) + [pos];
      case Some(k) =>
        var r := Relax(m, anchor, open, closed, from, ox, oy);
        assert Positions(r) == Positions(open);
    }
  }

  /** Python's list.remove for the node at index k (positions in an open list are unique). */
  function RemoveAt(s: seq<Node>, k: nat): (r: seq<Node>)
    requires k < |s|
    ensures |r| == |s| - 1
    ensures forall j :: 0 <= j < |r| ==> r[j] == if j < k then s[j] else s[j + 1]
  {
    s[..k] + s[k + 1..]
  }

  /** The parent of n, if any, is a closed node below index bound and an 8-neighbour of n. */
  ghost predicate LinkedBelow(n: Node, bound: int, closed: seq<Node>)
  {
    n.parent.Some? ==>
      n.parent.value < bound && n.parent.value < |closed| && Chebyshev(n.pos, closed[n.parent.value].pos) == 1
  }

  /** Every closed node's parent was closed before it. */
  ghost predicate LinksDown(closed: seq<Node>)
  {
    forall p :: 0 <= p < |closed| ==> closed[p].parent.Some? ==> closed[p].parent.value < p
  }

  /** Every node of the list lies on the map. */
  ghost predicate OnMap(m: GridMap, list: seq<Node>)
  {
    forall j :: 0 <= j < |list| ==> m.InBounds(list[j].pos)
  }

  /** No open node sits on a closed position, and each open node's parent is closed. */
  ghost predicate OpenOverClosed(open: seq<Node>, closed: seq<Node>)
  {
    forall j :: 0 <= j < |open| ==> open[j].pos !in Positions(closed) && LinkedBelow(open[j], |closed|, closed)
  }

  /** Each closed node's parent was closed before it. */
  ghost predicate ClosedLinked(closed: seq<Node>)
  {
    forall p :: 0 <= p < |closed| ==> LinkedBelow(closed[p], p, closed)
  }

  /** Before the first close only the root is open; afterwards the root is the first closed node and the only parentless one. */
  ghost predicate Rooted(root: Cell, open: seq<Node>, closed: seq<Node>)
  {
    && (|closed| == 0 ==> open == [Root(root)])
    && (|closed| > 0 ==>
          && closed[0].pos == root && closed[0].parent.None?
          && (forall j :: 0 <= j < |open| ==> open[j].parent.Some?)
          && (forall p :: 1 <= p < |closed| ==> closed[p].parent.Some?))
  }

  /**
   * The invariant of one search side rooted at `root`: every position is on the map,
   * open positions are unique and disjoint from closed ones, closed positions are unique,
   * every parent is an earlier-closed 8-neighbour, and the root is the first node closed.
   */
  ghost predicate SideInv(m: GridMap, root: Cell, open: seq<Node>, closed: seq<Node>)
  {
    && m.WellFormed()
    && OnMap(m, open) && OnMap(m, closed)
    && Distinct(Positions(open)) && Distinct(Positions(closed))
    && OpenOverClosed(open, closed)
    && ClosedLinked(closed)
    && Rooted(root, open, closed)
  }

  /** A side starts with only its root open. */
  lemma InitialSide(m: GridMap, root: Cell)
    requires m.WellFormed() && m.InBounds(root)
    ensures SideInv(m, root, [Root(root)], [])
  {
  }

  /** Every position a side has closed, plus the node about to be closed, fits on the map. */
  lemma CloseBound(m: GridMap, root: Cell, open: seq<Node>, closed: seq<Node>, k: nat)
    requires SideInv(m, root, open, closed) && k < |open|
    ensures |closed| + 1 <= m.width * m.height
  {
    var s := Positions(closed) + [open[k].pos];
    forall j | 0 <= j < |s| ensures m.InBounds(s[j]) {
      if j < |closed| { assert s[j] == closed[j].pos; }
    }
    DistinctCellsBound(m, s);
  }

  /** With distinct positions, the lookup by open[k]'s position finds k: list.remove removes the node getMinNode chose. */
  lemma {:induction false} RemoveSame(open: seq<Node>, k: nat)
    requires Distinct(Positions(open)) && k < |open|
    ensures PointInOpenList(open[k].pos, open) == Some(k)
    decreases |open|
  {
    var ps := Positions(open);
    if k > 0 {
      assert ps[0] != ps[k];
      var tail := open[1..];
      assert Positions(tail) == ps[1..];
      RemoveSame(tail, k - 1);
    }
  }

  /** Python's list.remove(n) for nodes compared by position: drop the first node at pos. */
  function RemoveFirst(s: seq<Node>, pos: Cell): (r: seq<Node>)
    ensures |r| <= |s|
  {
    if |s| == 0 then []
    else if s[0].pos == pos then s[1..]
    else [s[0]] + RemoveFirst(s[1..], pos)
  }

  /** With distinct positions, removing by open[k]'s position removes exactly index k. */
  lemma {:induction false} RemoveFirstAt(open: seq<Node>, k: nat)
    requires Distinct(Positions(open)) && k < |open|
    ensures RemoveFirst(open, open[k].pos) == RemoveAt(open, k)
    decreases |open|
  {
    var ps, pos := Positions(open), open[k].pos;
    if k == 0 {
      assert RemoveFirst(open, pos) == open[1..];
      assert open[..0] + open[1..] == open[1..];
    } else {
      assert ps[0] != ps[k];
      var tail := open[1..];
      assert Positions(tail) == ps[1..];
      assert tail[k - 1] == open[k];
      RemoveFirstAt(tail, k - 1);
      assert RemoveFirst(open, pos) == [open[0]] + RemoveFirst(tail, pos);
      var r, r1 := RemoveAt(open, k), RemoveAt(tail, k - 1);
      forall j | 0 <= j < |r| ensures r[j] == ([open[0]] + r1)[j] {
        if j > 0 {
          assert r1[j - 1] == if j - 1 < k - 1 then tail[j - 1] else tail[j];
        }
      }
      assert r == [open[0]] + r1;
    }
  }

  lemma RemoveKeepsDistinct(open: seq<Node>, k: nat)
    requires Distinct(Positions(open)) && k < |open|
    ensures Distinct(Positions(RemoveAt(open, k)))
  {
    var o := RemoveAt(open, k);
    forall i, j | 0 <= i < j < |o| ensures o[i].pos != o[j].pos {
      var i', j' := if i < k then i else i + 1, if j < k then j else j + 1;
      assert o[i].pos == Positions(open)[i'] && o[j].pos == Positions(open)[j'];
    }
  }

  lemma AppendKeepsDistinct(closed: seq<Node>, n: Node)
    requires Distinct(Positions(closed)) && n.pos !in Positions(closed)
    ensures Distinct(Positions(closed + [n]))
  {
    assert Positions(closed + [n]) == Positions(closed) + [n.pos];
  }

  lemma CloseOpenOverClosed(open: seq<Node>, closed: seq<Node>, k: nat)
    requires Distinct(Positions(open)) && OpenOverClosed(open, closed) && k < |open|
    ensures OpenOverClosed(RemoveAt(open, k), closed + [open[k]])
  {
    var open', closed' := RemoveAt(open, k), closed + [open[k]];
    assert Positions(closed') == Positions(closed) + [open[k].pos];
    forall j | 0 <= j < |open'|
      ensures open'[j].pos !in Positions(closed')
      ensures LinkedBelow(open'[j], |closed'|, closed')
    {
      var j' := if j < k then j else j + 1;
      assert open'[j] == open[j'];
      assert open[j'].pos != open[k].pos by {
        assert Positions(open)[j'] == open[j'].pos && Positions(open)[k] == open[k].pos;
      }
      assert LinkedBelow(open[j'], |closed|, closed);
    }
  }

  lemma CloseClosedLinked(open: seq<Node>, closed: seq<Node>, k: nat)
    requires OpenOverClosed(open, closed) && ClosedLinked(closed) && k < |open|
    ensures ClosedLinked(closed + [open[k]])
  {
    var closed' := closed + [open[k]];
    forall p | 0 <= p < |closed'| ensures LinkedBelow(closed'[p], p, closed') {
      if p < |closed| {
        assert closed'[p] == closed[p];
        assert LinkedBelow(closed[p], p, closed);
      } else {
        assert LinkedBelow(open[k], |closed|, closed);
      }
    }
  }

  lemma CloseRooted(root: Cell, open: seq<Node>, closed: seq<Node>, k: nat)
    requires Rooted(root, open, closed) && k < |open|
    ensures Rooted(root, RemoveAt(open, k), closed + [open[k]])
  {
  }

  /**
   * Closing open[k], the node getMinNode chose: removing by its position removes it, the closed
   * list stays within the map's cell count, and the side invariant holds afterwards.
   */
  lemma CloseChosen(m: GridMap, root: Cell, open: seq<Node>, closed: seq<Node>, k: nat)
    requires SideInv(m, root, open, closed) && k < |open|
    ensures RemoveFirst(open, open[k].pos) == RemoveAt(open, k)
    ensures |closed| + 1 <= m.width * m.height
    ensures SideInv(m, root, RemoveAt(open, k), closed + [open[k]])
  {
    RemoveFirstAt(open, k);
    CloseBound(m, root, open, closed, k);
    CloseKeepsSide(m, root, open, closed, k);
  }

  /** Moving open[k] to the end of the closed list keeps the side invariant. */
  lemma CloseKeepsSide(m: GridMap, root: Cell, open: seq<Node>, closed: seq<Node>, k: nat)
    requires SideInv(m, root, open, closed) && k < |open|
    ensures SideInv(m, root, RemoveAt(open, k), closed + [open[k]])
  {
    RemoveKeepsDistinct(open, k);
    AppendKeepsDistinct(closed, open[k]);
    CloseOpenOverClosed(open, closed, k);
    CloseClosedLinked(open, closed, k);
    CloseRooted(root, open, closed, k);
  }

  /** Relaxing a neighbour of a closed node keeps the side invariant. */
  lemma RelaxKeepsSide(m: GridMap, root: Cell, anchor: Cell, open: seq<Node>, closed: seq<Node>, from: nat, ox: int, oy: int)
    requires SideInv(m, root, open, closed) && |closed| > 0 && from < |closed| && UnitOffset(ox, oy)
    ensures SideInv(m, root, Relax(m, anchor, open, closed, from, ox, oy), closed)
  {
    assert LinkedBelow(closed[from], from, closed);
    var r := Relax(m, anchor, open, closed, from, ox, oy);
    var kind, n, k := RelaxCases(m, anchor, open, closed, from, ox, oy);
    if kind == 1 {
      RelaxAppendSide(m, root, open, closed, n, r);
    } else if kind == 2 {
      RelaxUpdateSide(m, root, open, closed, k, n, r);
    } else {
      SideSame(m, root, open, r, closed);
    }
  }

  lemma SideSame(m: GridMap, root: Cell, open: seq<Node>, r: seq<Node>, closed: seq<Node>)
    requires SideInv(m, root, open, closed) && r == open
    ensures SideInv(m, root, r, closed)
  {
  }

  /**
   * The three shapes a relaxation can take: no change (kind 0), a fresh node n appended
   * (kind 1), or the open node at index k replaced by n at the same position (kind 2);
   * in the last two n's parent is the adjacent closed node from.
   */
  lemma RelaxCases(m: GridMap, anchor: Cell, open: seq<Node>, closed: seq<Node>, from: nat, ox: int, oy: int)
    returns (kind: int, n: Node, k: nat)
    requires m.WellFormed() && from < |closed| && UnitOffset(ox, oy)
    requires closed[from].parent.Some? ==> closed[from].parent.value < |closed|
    ensures 0 <= kind <= 2
    ensures var r := Relax(m, anchor, open, closed, from, ox, oy);
      && (kind == 0 ==> r == open)
      && (kind == 1 ==> r == open + [n] && m.InBounds(n.pos) && n.pos !in Positions(closed) && n.pos !in Positions(open))
      && (kind == 2 ==> k < |open| && r == open[k := n] && n.pos == open[k].pos)
      && (kind != 0 ==> n.parent == Some(from) && Chebyshev(n.pos, closed[from].pos) == 1)
  {
    var minF := closed[from];
    var pos := Offset(minF.pos, ox, oy);
    assert Chebyshev(pos, minF.pos) == 1;
    var r := Relax(m, anchor, open, closed, from, ox, oy);
    kind, n, k := 0, minF, 0;
    if !m.InBounds(pos) || PointInCloseList(pos, closed) {
      assert r == open;
    } else {
      match PointInOpenList(pos, open)
      case None =>
        var g := minF.g + StepCost(ox, oy);
        var h := Heuristic(m, pos, anchor) + CheckDirection(pos, minF, closed) as real;
        kind, n := 1, Node(pos, Some(from), g, h, g + h);
        assert r == open + [n];
      case Some(j) =>
        if minF.g + StepCost(ox, oy) < open[j].g {
          kind, n, k := 2, open[j].(g := minF.g + StepCost(ox, oy), parent := Some(from)), j;
          assert r == open[k := n];
        } else {
          assert r == open;
        }
    }
  }

  /** Appending a fresh on-map node whose parent is an adjacent closed node keeps the side invariant. */
  lemma RelaxAppendSide(m: GridMap, root: Cell, open: seq<Node>, closed: seq<Node>, n: Node, o: seq<Node>)
    requires SideInv(m, root, open, closed) && |closed| > 0
    requires m.InBounds(n.pos) && n.pos !in Positions(closed) && n.pos !in Positions(open)
    requires n.parent.Some? && LinkedBelow(n, |closed|, closed)
    requires o == open + [n]
    ensures SideInv(m, root, o, closed)
  {
    assert Positions(o) == Positions(open) + [n.pos];
    assert OpenOverClosed(o, closed) by {
      forall j | 0 <= j < |o| ensures o[j].pos !in Positions(closed) && LinkedBelow(o[j], |closed|, closed) {
        if j < |open| { assert o[j] == open[j]; }
      }
    }
  }

  /** Replacing the node at index j by one at the same position with a closed adjacent parent keeps the side invariant. */
  lemma RelaxUpdateSide(m: GridMap, root: Cell, open: seq<Node>, closed: seq<Node>, j: nat, n: Node, o: seq<Node>)
    requires SideInv(m, root, open, closed) && |closed| > 0 && j < |open|
    requires n.pos == open[j].pos && n.parent.Some? && LinkedBelow(n, |closed|, closed)
    requires o == open[j := n]
    ensures SideInv(m, root, o, closed)
  {
    assert Positions(o) == Positions(open);
    assert OpenOverClosed(o, closed) by {
      forall i | 0 <= i < |o| ensures o[i].pos !in Positions(closed) && LinkedBelow(o[i], |closed|, closed) {
        if i != j { assert o[i] == open[i]; }
      }
    }
  }

  // ---------------------------------------------------------------------------
  // Parent chains (the reconstruction loops of bi_astar).

  /** The positions met walking parent links from closed[i] to its root. */
  function Chain(closed: seq<Node>, i: nat): (r: seq<Cell>)
    requires LinksDown(closed) && i < |closed|
    ensures |r| >= 1 && r[0] == closed[i].pos
    decreases i
  {
    [closed[i].pos] + match closed[i].parent
                      case None => []
                      case Some(q) => Chain(closed, q)
  }

  /** The positions met walking parent links from the node n to its root. */
  function NodeChain(n: Node, closed: seq<Node>): (r: seq<Cell>)
    requires LinksDown(closed) && (n.parent.Some? ==> n.parent.value < |closed|)
    ensures |r| >= 1 && r[0] == n.pos
  {
    [n.pos] + match n.parent
              case None => []
              case Some(q) => Chain(closed, q)
  }

  /** The closed list of a side forms a tree of 8-neighbour links rooted at its first node, root. */
  ghost predicate ClosedTree(m: GridMap, root: Cell, closed: seq<Node>)
  {
    && m.WellFormed() && OnMap(m, closed) && ClosedLinked(closed)
    && (|closed| > 0 ==>
          && closed[0].pos == root && closed[0].parent.None?
          && (forall p :: 1 <= p < |closed| ==> closed[p].parent.Some?))
  }

  lemma SideTree(m: GridMap, root: Cell, open: seq<Node>, closed: seq<Node>)
    requires SideInv(m, root, open, closed)
    ensures ClosedTree(m, root, closed)
  {
  }

  lemma SideLinksDown(closed: seq<Node>)
    requires ClosedLinked(closed)
    ensures LinksDown(closed)
  {
    forall p | 0 <= p < |closed| && closed[p].parent.Some? ensures closed[p].parent.value < p {
      assert LinkedBelow(closed[p], p, closed);
    }
  }

  /** A closed chain ends at the side's root, stays on the map, and moves between 8-neighbours. */
  lemma {:induction false} ChainToRoot(m: GridMap, root: Cell, closed: seq<Node>, i: nat)
    requires ClosedTree(m, root, closed) && i < |closed|
    ensures LinksDown(closed)
    ensures var c := Chain(closed, i);
      && c[|c| - 1] == root
      && (forall j :: 0 <= j < |c| ==> m.InBounds(c[j]))
      && (forall j :: 0 <= j < |c| - 1 ==> Chebyshev(c[j], c[j + 1]) == 1)
    decreases i
  {
    SideLinksDown(closed);
    var c := Chain(closed, i);
    assert LinkedBelow(closed[i], i, closed);
    match closed[i].parent
    case None =>
      assert c == [closed[i].pos];
    case Some(q) =>
      ChainToRoot(m, root, closed, q);
      var rest := Chain(closed, q);
      assert c == [closed[i].pos] + rest;
      ChainCons(m, closed[i].pos, rest);
  }

  /** Putting an on-map 8-neighbour of its first cell in front of a connected on-map chain keeps it so. */
  lemma ChainCons(m: GridMap, c: Cell, rest: seq<Cell>)
    requires |rest| >= 1 && m.InBounds(c) && Chebyshev(c, rest[0]) == 1
    requires forall j :: 0 <= j < |rest| ==> m.InBounds(rest[j])
    requires forall j :: 0 <= j < |rest| - 1 ==> Chebyshev(rest[j], rest[j + 1]) == 1
    ensures var s := [c] + rest;
      && (forall j :: 0 <= j < |s| ==> m.InBounds(s[j]))
      && (forall j :: 0 <= j < |s| - 1 ==> Chebyshev(s[j], s[j + 1]) == 1)
  {
    var s := [c] + rest;
    forall j | 0 <= j < |s| - 1 ensures Chebyshev(s[j], s[j + 1]) == 1 {
      if j > 0 { assert s[j] == rest[j - 1] && s[j + 1] == rest[j]; }
    }
  }

  /**
   * Once a side has closed a node, the chain of any of its open nodes has at least two
   * cells, ends at the side's root, stays on the map and moves between 8-neighbours.
   */
  lemma OpenChainToRoot(m: GridMap, root: Cell, open: seq<Node>, closed: seq<Node>, k: nat)
    requires SideInv(m, root, open, closed) && |closed| > 0 && k < |open|
    ensures LinksDown(closed) && open[k].parent.Some? && open[k].parent.value < |closed|
    ensures var c := NodeChain(open[k], closed);
      && |c| >= 2 && c[|c| - 1] == root
      && (forall j :: 0 <= j < |c| ==> m.InBounds(c[j]))
      && (forall j :: 0 <= j < |c| - 1 ==> Chebyshev(c[j], c[j + 1]) == 1)
  {
    assert LinkedBelow(open[k], |closed|, closed);
    var q := open[k].parent.value;
    SideTree(m, root, open, closed);
    ChainToRoot(m, root, closed, q);
    var c, rest := NodeChain(open[k], closed), Chain(closed, q);
    assert c == [open[k].pos] + rest;
    ChainCons(m, open[k].pos, rest);
  }

  /** OpenChainToRoot for the open node at position c. */
  lemma OpenNodeChain(m: GridMap, root: Cell, open: seq<Node>, closed: seq<Node>, c: Cell)
    requires SideInv(m, root, open, closed) && |closed| > 0 && c in Positions(open)
    ensures LinksDown(closed) && NodeAt(c, open).parent.Some? && NodeAt(c, open).parent.value < |closed|
    ensures var chain := NodeChain(NodeAt(c, open), closed);
      && |chain| >= 2 && chain[|chain| - 1] == root
      && (forall j :: 0 <= j < |chain| ==> m.InBounds(chain[j]))
      && (forall j :: 0 <= j < |chain| - 1 ==> Chebyshev(chain[j], chain[j + 1]) == 1)
  {
    OpenChainToRoot(m, root, open, closed, PointInOpenList(c, open).value);
  }

  /** The positions of s, in s's order, that also occur in t (check_intersection). */
  function Common(s: seq<Node>, t: seq<Node>): (r: seq<Cell>)
    ensures |r| <= |s|
    ensures forall c :: c in r <==> c in Positions(s) && c in Positions(t)
    decreases |s|
  {
    if |s| == 0 then []
    else
      var last := s[|s| - 1];
      assert Positions(s) == Positions(s[..|s| - 1]) + [last.pos];
      Common(s[..|s| - 1], t) + (if PointInOpenList(last.pos, t).Some? then [last.pos] else [])
  }

  lemma CommonSnoc(s: seq<Node>, t: seq<Node>, i: nat)
    requires i < |s|
    ensures Common(s[..i + 1], t) == Common(s[..i], t) + (if PointInOpenList(s[i].pos, t).Some? then [s[i].pos] else [])
  {
    assert s[..i + 1][..i] == s[..i];
  }

  /** The eight neighbour offsets, in the order bi_astar expands them. */
  const Neighbours: seq<(int, int)> := [(0, 1), (1, 0), (0, -1), (-1, 0), (1, 1), (1, -1), (-1, 1), (-1, -1)]

  /** The open list after relaxing the neighbours of closed[from] at the given offsets, in order. */
  function Expand(m: GridMap, anchor: Cell, open: seq<Node>, closed: seq<Node>, from: nat, offsets: seq<(int, int)>): (r: seq<Node>)
    requires m.WellFormed() && from < |closed|
    requires closed[from].parent.Some? ==> closed[from].parent.value < |closed|
    ensures |open| <= |r| <= |open| + |offsets|
    ensures forall j :: 0 <= j < |open| ==> r[j].pos == open[j].pos
    decreases |offsets|
  {
    if |offsets| == 0 then open
    else
      var off := offsets[|offsets| - 1];
      Relax(m, anchor, Expand(m, anchor, open, closed, from, offsets[..|offsets| - 1]), closed, from, off.0, off.1)
  }

  lemma ExpandStep(m: GridMap, anchor: Cell, open: seq<Node>, closed: seq<Node>, from: nat, offsets: seq<(int, int)>, d: nat)
    requires m.WellFormed() && from < |closed| && d < |offsets|
    requires closed[from].parent.Some? ==> closed[from].parent.value < |closed|
    ensures Expand(m, anchor, open, closed, from, offsets[..d + 1]) ==
            Relax(m, anchor, Expand(m, anchor, open, closed, from, offsets[..d]), closed, from, offsets[d].0, offsets[d].1)
  {
    assert offsets[..d + 1][..d] == offsets[..d];
  }

  /** Expanding a closed node over unit offsets keeps the side invariant. */
  lemma {:induction false} ExpandKeepsSide(m: GridMap, root: Cell, anchor: Cell, open: seq<Node>, closed: seq<Node>, from: nat, offsets: seq<(int, int)>)
    requires SideInv(m, root, open, closed) && |closed| > 0 && from < |closed|
    requires forall j :: 0 <= j < |offsets| ==> UnitOffset(offsets[j].0, offsets[j].1)
    ensures closed[from].parent.Some? ==> closed[from].parent.value < |closed|
    ensures SideInv(m, root, Expand(m, anchor, open, closed, from, offsets), closed)
    decreases |offsets|
  {
    assert LinkedBelow(closed[from], from, closed);
    if |offsets| > 0 {
      var front, off := offsets[..|offsets| - 1], offsets[|offsets| - 1];
      ExpandKeepsSide(m, root, anchor, open, closed, from, front);
      RelaxKeepsSide(m, root, anchor, Expand(m, anchor, open, closed, from, front), closed, from, off.0, off.1);
    }
  }

  /** search_start / search_end on one side's lists; the new open list is returned. */
  method Search(m: GridMap, anchor: Cell, open: seq<Node>, closed: seq<Node>, from: nat, ox: int, oy: int)
      returns (open': seq<Node>)
    requires m.WellFormed() && from < |closed|
    requires closed[from].parent.Some? ==> closed[from].parent.value < |closed|
    ensures open' == Relax(m, anchor, open, closed, from, ox, oy)
  {
    open' := open;
    var minF := closed[from];
    var pos := Offset(minF.pos, ox, oy);
    if pos.x > m.width - 1 || pos.x < 0 || pos.y > m.height - 1 || pos.y < 0 {
      return;
    } else if PointInCloseList(pos, closed) {
      return;
    }
    var current := PointInOpenList(pos, open);
    if current.None? {
      var g := minF.g + StepCost(ox, oy);
      var turnCost := CheckDirection(pos, minF, closed);
      var h := Heuristic(m, pos, anchor) + turnCost as real;
      open' := open + [Node(pos, Some(from), g, h, g + h)];
    } else {
      var k := current.value;
      var actionCost := StepCost(ox, oy);
      if minF.g + actionCost < open[k].g {
        open' := open[k := open[k].(g := minF.g + actionCost, parent := Some(from))];
      }
    }
  }

  /** The reconstruction walk of bi_astar: follow parent links from n, collecting positions. */
  method Trace(n: Node, closed: seq<Node>) returns (path: seq<Cell>)
    requires LinksDown(closed) && (n.parent.Some? ==> n.parent.value < |closed|)
    ensures path == NodeChain(n, closed)
  {
    path := [n.pos];
    var current := n.parent;
    while current.Some?
      invariant current.Some? ==> current.value < |closed|
      invariant NodeChain(n, closed) == path + (if current.Some? then Chain(closed, current.value) else [])
      decreases if current.Some? then current.value + 1 else 0
    {
      var node := closed[current.value];
      path := path + [node.pos];
      current := node.parent;
    }
  }

  /** The node pointInOpenList finds at a position known to be open. */
  function NodeAt(c: Cell, list: seq<Node>): (n: Node)
    requires c in Positions(list)
    ensures n.pos == c
  {
    list[PointInOpenList(c, list).value]
  }

  /** The summed f of the two open nodes at a meeting cell. */
  function MeetingF(c: Cell, openStart: seq<Node>, openEnd: seq<Node>): real
    requires c in Positions(openStart) && c in Positions(openEnd)
  {
    NodeAt(c, openStart).f + NodeAt(c, openEnd).f
  }

  /** The summed f at every cell of intersect. */
  function MeetingFs(intersect: seq<Cell>, openStart: seq<Node>, openEnd: seq<Node>): (fs: seq<real>)
    requires forall j :: 0 <= j < |intersect| ==> intersect[j] in Positions(openStart) && intersect[j] in Positions(openEnd)
    ensures |fs| == |intersect|
  {
    seq(|intersect|, j requires 0 <= j < |intersect| => MeetingF(intersect[j], openStart, openEnd))
  }

  /** k is the first index at which fs is minimal. */
  predicate FirstMinimum(fs: seq<real>, k: int)
  {
    FirstMinBelow(fs, |fs|, k)
  }

  /**
   * The meeting-cell selection of bi_astar: k is the first index of intersect whose summed f
   * is minimal, and nodeStart is the start-side node at the LAST intersect cell, the value
   * the selection loop leaves behind.
   */
  method SelectMeeting(intersect: seq<Cell>, openStart: seq<Node>, openEnd: seq<Node>) returns (k: nat, nodeStart: Node)
    requires |intersect| > 0
    requires forall j :: 0 <= j < |intersect| ==> intersect[j] in Positions(openStart) && intersect[j] in Positions(openEnd)
    ensures FirstMinimum(MeetingFs(intersect, openStart, openEnd), k)
    ensures nodeStart == NodeAt(intersect[|intersect| - 1], openStart)
  {
    ghost var fs := MeetingFs(intersect, openStart, openEnd);
    k := 0;
    var currentF := MeetingF(intersect[0], openStart, openEnd);
    nodeStart := NodeAt(intersect[0], openStart);
    for i := 0 to |intersect|
      invariant k <= i && FirstMinBelow(fs, if i == 0 then 1 else i, k) && currentF == fs[k]
      invariant i > 0 ==> nodeStart == NodeAt(intersect[i - 1], openStart)
    {
      k, currentF, nodeStart := SelectStep(intersect, openStart, openEnd, fs, i, k, currentF);
    }
  }

  /**
   * One pass of the selection loop at intersect[i]: read the two open nodes there and keep i
   * when its summed f is strictly below the best so far.
   */
  method SelectStep(intersect: seq<Cell>, openStart: seq<Node>, openEnd: seq<Node>, ghost fs: seq<real>, i: nat, k: nat, currentF: real)
    returns (k': nat, currentF': real, nodeStart: Node)
    requires forall j :: 0 <= j < |intersect| ==> intersect[j] in Positions(openStart) && intersect[j] in Positions(openEnd)
    requires fs == MeetingFs(intersect, openStart, openEnd)
    requires i < |intersect| && k <= i && FirstMinBelow(fs, if i == 0 then 1 else i, k) && currentF == fs[k]
    ensures k' <= i && FirstMinBelow(fs, i + 1, k') && currentF' == fs[k']
    ensures nodeStart == NodeAt(intersect[i], openStart)
  {
    var pos := intersect[i];
    nodeStart := NodeAt(pos, openStart);
    var nodeEnd := NodeAt(pos, openEnd);
    var f := nodeStart.f + nodeEnd.f;
    assert f == fs[i];
    MinimumStep(fs, i, k);
    if f < currentF {
      k', currentF' := i, f;
    } else {
      k', currentF' := k, currentF;
    }
  }

  /** k is the first index at which fs[..n] is minimal. */
  predicate FirstMinBelow(fs: seq<real>, n: int, k: int)
  {
    && 0 <= k < n <= |fs|
    && (forall j :: 0 <= j < n ==> fs[k] <= fs[j])
    && (forall j :: 0 <= j < k ==> fs[j] > fs[k])
  }

  lemma MinimumStep(fs: seq<real>, i: nat, k: nat)
    requires i < |fs| && k <= i && FirstMinBelow(fs, if i == 0 then 1 else i, k)
    ensures fs[i] < fs[k] ==> FirstMinBelow(fs, i + 1, i)
    ensures fs[i] >= fs[k] ==> FirstMinBelow(fs, i + 1, k)
  {
  }
}

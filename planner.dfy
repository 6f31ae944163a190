/**
 * Bidirectional_Astar_Planner: two A* searches, one rooted at the start and one at the
 * end, advance one node each per round until their open lists share a cell; the two
 * parent chains through the meeting cell are joined, simplified and densified.
 */
module BidirectionalPlanner {
  import opened Grid
  import opened LineOfSight
  import opened Simplifier
  import opened Densifier
  import opened Frontier

  /**
   * What bi_astar promises about a returned path: raw is the joined parent chain from end to
   * start, keys its string-pulled key points (Smoothed and Kept, which hold of exactly one
   * path, the one Path_smoothing returns), and path the reversed densification of keys; the
   * path stays on the map, steps between 8-neighbours, and unless start == end it is not empty,
   * ends at end and begins next to start, which is itself left out.
   */
  ghost predicate Planned(m: GridMap, start: Cell, end: Cell,
                          raw: seq<Cell>, keys: seq<Cell>, idx: seq<int>, path: seq<Cell>)
    requires m.WellFormed()
  {
    && |raw| >= 2 && raw[0] == end && raw[|raw| - 1] == start
    && (forall j :: 0 <= j < |raw| ==> m.InBounds(raw[j]))
    && (forall j :: 0 <= j < |KeyPoints(raw)| ==> m.InBounds(KeyPoints(raw)[j]))
    && Smoothed(m, KeyPoints(raw), keys, idx)
    && Kept(m, KeyPoints(raw), keys, idx, |keys| - 2)
    && path == Reverse(Densify(keys))
    && (forall j :: 0 <= j < |path| ==> m.InBounds(path[j]))
    && (forall j :: 0 <= j < |path| - 1 ==> Chebyshev(path[j], path[j + 1]) == 1)
    && (start != end ==> |path| >= 1 && path[|path| - 1] == end && Chebyshev(path[0], start) == 1)
  }

  /**
   * raw is the path bi_astar joins before smoothing: k is the first shared cell of minimal summed f,
   * and raw is the end-side parent chain from the open node at intersect[k], without that cell,
   * reversed, followed by the start-side parent chain from the open node at the LAST shared cell.
   */
  ghost predicate Joined(openStart: seq<Node>, closedStart: seq<Node>, openEnd: seq<Node>, closedEnd: seq<Node>,
                         intersect: seq<Cell>, k: int, raw: seq<Cell>)
  {
    && LinksDown(closedStart) && LinksDown(closedEnd)
    && |intersect| > 0
    && (forall j :: 0 <= j < |intersect| ==> intersect[j] in Positions(openStart) && intersect[j] in Positions(openEnd))
    && FirstMinimum(MeetingFs(intersect, openStart, openEnd), k)
    && NodeAt(intersect[k], openEnd).parent.Some? && NodeAt(intersect[k], openEnd).parent.value < |closedEnd|
    && NodeAt(intersect[|intersect| - 1], openStart).parent.Some?
    && NodeAt(intersect[|intersect| - 1], openStart).parent.value < |closedStart|
    && raw == Reverse(NodeChain(NodeAt(intersect[k], openEnd), closedEnd)[1..]) +
              NodeChain(NodeAt(intersect[|intersect| - 1], openStart), closedStart)
  }

  /** A planned path, or the failure raised when an open list runs dry (getMinNode on []). */
  datatype PlanResult = Found(path: seq<Cell>) | SearchFailed

  /**
   * Reverse(Densify(keys)) for key points running from end to start: every cell is an
   * 8-neighbour of the next, and when start and end differ the path is not empty, ends at
   * end and its first cell is an 8-neighbour of start, which is itself left out.
   */
  lemma PlannedPathShape(keys: seq<Cell>, start: Cell, end: Cell)
    requires |keys| >= 2 && keys[0] == end && keys[|keys| - 1] == start
    requires forall s :: 0 <= s < |keys| ==> keys[s].x >= 0 && keys[s].y >= 0
    ensures var path := Reverse(Densify(keys));
      && (forall j :: 0 <= j < |path| - 1 ==> Chebyshev(path[j], path[j + 1]) == 1)
      && (start != end ==> |path| >= 1 && path[|path| - 1] == end && Chebyshev(path[0], start) == 1)
  {
    DensifyWalk(keys);
    var d := Densify(keys);
    var path := Reverse(d);
    forall j | 0 <= j < |path| - 1 ensures Chebyshev(path[j], path[j + 1]) == 1 {
      var i := |d| - 2 - j;
      assert path[j] == d[i + 1] && path[j + 1] == d[i];
      assert Chebyshev(d[i], d[i + 1]) == 1;
    }
  }

  /** Joining the reversed tail of an end-side chain to a start-side chain keeps the cells on the map. */
  lemma JoinChains(m: GridMap, endPath: seq<Cell>, startPath: seq<Cell>)
    requires |endPath| >= 2 && |startPath| >= 1
    requires forall j :: 0 <= j < |endPath| ==> m.InBounds(endPath[j])
    requires forall j :: 0 <= j < |startPath| ==> m.InBounds(startPath[j])
    ensures var path := Reverse(endPath[1..]) + startPath;
      && |path| >= 2 && path[0] == endPath[|endPath| - 1] && path[|path| - 1] == startPath[|startPath| - 1]
      && (forall j :: 0 <= j < |path| ==> m.InBounds(path[j]))
  {
    var path := Reverse(endPath[1..]) + startPath;
    forall j | 0 <= j < |path| ensures m.InBounds(path[j]) {
      if j < |endPath| - 1 {
        assert path[j] == endPath[|endPath| - 1 - j];
      } else {
        assert path[j] == startPath[j - (|endPath| - 1)];
      }
    }
  }

  class Planner {
    var grid: GridMap
    var startNode: Node
    var endNode: Node
    var openStart: seq<Node>
    var closedStart: seq<Node>
    var openEnd: seq<Node>
    var closedEnd: seq<Node>
    var intersect: seq<Cell>

    /** Bidirectional_Astar_Planner(): the lists are set up by BiAstar. */
    constructor()
      ensures openStart == [] && closedStart == [] && openEnd == [] && closedEnd == [] && intersect == []
    {
      grid := GridMap([], 0, 0);
      startNode := Root(Cell(0, 0));
      endNode := Root(Cell(0, 0));
      openStart, closedStart := [], [];
      openEnd, closedEnd := [], [];
      intersect := [];
    }

    /** Both sides satisfy the side invariant over the same grid. */
    ghost predicate Valid()
      reads this
    {
      SideInv(grid, startNode.pos, openStart, closedStart) && SideInv(grid, endNode.pos, openEnd, closedEnd)
    }

    /** search_start: relax one neighbour of closedStart[from], estimating toward the end. */
    method SearchStart(from: nat, ox: int, oy: int)
      requires grid.WellFormed() && from < |closedStart|
      requires closedStart[from].parent.Some? ==> closedStart[from].parent.value < |closedStart|
      modifies this`openStart
      ensures openStart == Relax(grid, endNode.pos, old(openStart), closedStart, from, ox, oy)
    {
      openStart := Search(grid, endNode.pos, openStart, closedStart, from, ox, oy);
    }

    /** search_end: relax one neighbour of closedEnd[from], estimating toward the start. */
    method SearchEnd(from: nat, ox: int, oy: int)
      requires grid.WellFormed() && from < |closedEnd|
      requires closedEnd[from].parent.Some? ==> closedEnd[from].parent.value < |closedEnd|
      modifies this`openEnd
      ensures openEnd == Relax(grid, startNode.pos, old(openEnd), closedEnd, from, ox, oy)
    {
      openEnd := Search(grid, startNode.pos, openEnd, closedEnd, from, ox, oy);
    }

    /** The eight search_start calls of one round. */
    method ExpandStart(from: nat)
      requires SideInv(grid, startNode.pos, openStart, closedStart) && from < |closedStart|
      modifies this`openStart
      ensures closedStart[from].parent.Some? ==> closedStart[from].parent.value < |closedStart|
      ensures openStart == Expand(grid, endNode.pos, old(openStart), closedStart, from, Neighbours)
      ensures SideInv(grid, startNode.pos, openStart, closedStart)
    {
      NeighboursUnit();
      ExpandKeepsSide(grid, startNode.pos, endNode.pos, openStart, closedStart, from, Neighbours);
      for d := 0 to |Neighbours|
        invariant openStart == Expand(grid, endNode.pos, old(openStart), closedStart, from, Neighbours[..d])
      {
        ExpandStep(grid, endNode.pos, old(openStart), closedStart, from, Neighbours, d);
        SearchStart(from, Neighbours[d].0, Neighbours[d].1);
      }
      assert Neighbours[..|Neighbours|] == Neighbours;
    }

    /** The eight search_end calls of one round. */
    method ExpandEnd(from: nat)
      requires SideInv(grid, endNode.pos, openEnd, closedEnd) && from < |closedEnd|
      modifies this`openEnd
      ensures closedEnd[from].parent.Some? ==> closedEnd[from].parent.value < |closedEnd|
      ensures openEnd == Expand(grid, startNode.pos, old(openEnd), closedEnd, from, Neighbours)
      ensures SideInv(grid, endNode.pos, openEnd, closedEnd)
    {
      NeighboursUnit();
      ExpandKeepsSide(grid, endNode.pos, startNode.pos, openEnd, closedEnd, from, Neighbours);
      for d := 0 to |Neighbours|
        invariant openEnd == Expand(grid, startNode.pos, old(openEnd), closedEnd, from, Neighbours[..d])
      {
        ExpandStep(grid, startNode.pos, old(openEnd), closedEnd, from, Neighbours, d);
        SearchEnd(from, Neighbours[d].0, Neighbours[d].1);
      }
      assert Neighbours[..|Neighbours|] == Neighbours;
    }

    /** check_intersection: append every start-side open position that is also open on the end side. */
    method CheckIntersection()
      modifies this`intersect
      ensures intersect == old(intersect) + Common(openStart, openEnd)
    {
      for i := 0 to |openStart|
        invariant intersect == old(intersect) + Common(openStart[..i], openEnd)
      {
        CommonSnoc(openStart, openEnd, i);
        var append := PointInOpenList(openStart[i].pos, openEnd);
        if append.Some? {
          intersect := intersect + [openEnd[append.value].pos];
        }
      }
      assert openStart[..|openStart|] == openStart;
    }

    /**
     * The path reconstruction of bi_astar: the end-side chain from the cheapest meeting
     * cell, without that cell, reversed, followed by the start-side chain from the node that
     * the selection loop left behind (the one at the last meeting cell). The result runs from
     * end to start over grid cells.
     */
    method Reconstruct() returns (path: seq<Cell>, k: nat)
      requires Valid() && |closedStart| > 0 && |closedEnd| > 0 && |intersect| > 0
      requires forall j :: 0 <= j < |intersect| ==> intersect[j] in Positions(openStart) && intersect[j] in Positions(openEnd)
      ensures LinksDown(closedStart) && LinksDown(closedEnd)
      ensures FirstMinimum(MeetingFs(intersect, openStart, openEnd), k)
      ensures NodeAt(intersect[k], openEnd).parent.Some? && NodeAt(intersect[k], openEnd).parent.value < |closedEnd|
      ensures NodeAt(intersect[|intersect| - 1], openStart).parent.Some?
      ensures NodeAt(intersect[|intersect| - 1], openStart).parent.value < |closedStart|
      ensures path == Reverse(NodeChain(NodeAt(intersect[k], openEnd), closedEnd)[1..]) +
                      NodeChain(NodeAt(intersect[|intersect| - 1], openStart), closedStart)
      ensures |path| >= 2 && path[0] == endNode.pos && path[|path| - 1] == startNode.pos
      ensures forall j :: 0 <= j < |path| ==> grid.InBounds(path[j])
      ensures Joined(openStart, closedStart, openEnd, closedEnd, intersect, k, path)
    {
      var nodeStart;
      k, nodeStart := SelectMeeting(intersect, openStart, openEnd);
      OpenNodeChain(grid, endNode.pos, openEnd, closedEnd, intersect[k]);
      OpenNodeChain(grid, startNode.pos, openStart, closedStart, intersect[|intersect| - 1]);
      var current := NodeAt(intersect[k], openEnd);
      var endPath := Trace(current, closedEnd);
      path := Reverse(endPath[1..]);
      var startPath := Trace(nodeStart, closedStart);
      path := path + startPath;
      JoinChains(grid, endPath, startPath);
    }

    /**
     * The closing step of a bi_astar round: the first minimum-f open node of each side
     * (getMinNode) moves to the end of that side's closed list; removing it by position
     * (list.remove) finds exactly that node, because open positions are distinct.
     */
    method CloseMinima() returns (ks: nat, ke: nat)
      requires Valid() && |openStart| > 0 && |openEnd| > 0
      modifies this`openStart, this`closedStart, this`openEnd, this`closedEnd
      ensures ks < |old(openStart)| && ke < |old(openEnd)|
      ensures FirstMinNode(old(openStart), ks)
      ensures FirstMinNode(old(openEnd), ke)
      ensures closedStart == old(closedStart) + [old(openStart)[ks]] && openStart == RemoveAt(old(openStart), ks)
      ensures closedEnd == old(closedEnd) + [old(openEnd)[ke]] && openEnd == RemoveAt(old(openEnd), ke)
      ensures Valid()
      ensures |closedStart| <= grid.width * grid.height && |closedEnd| <= grid.width * grid.height
    {
      ks := GetMinNode(openStart);
      ke := GetMinNode(openEnd);
      var minFStart, minFEnd := openStart[ks], openEnd[ke];
      CloseChosen(grid, startNode.pos, openStart, closedStart, ks);
      CloseChosen(grid, endNode.pos, openEnd, closedEnd, ke);
      closedStart := closedStart + [minFStart];
      openStart := RemoveFirst(openStart, minFStart.pos);
      closedEnd := closedEnd + [minFEnd];
      openEnd := RemoveFirst(openEnd, minFEnd.pos);
    }

    /**
     * One round of the bi_astar loop: close the minimum-f node of each side, relax its
     * eight neighbours (end side first), then collect the cells open on both sides.
     */
    method Round() returns (ks: nat, ke: nat)
      requires Valid() && |openStart| > 0 && |openEnd| > 0 && intersect == []
      modifies this`openStart, this`closedStart, this`openEnd, this`closedEnd, this`intersect
      ensures ks < |old(openStart)| && ke < |old(openEnd)|
      ensures FirstMinNode(old(openStart), ks)
      ensures FirstMinNode(old(openEnd), ke)
      ensures closedStart == old(closedStart) + [old(openStart)[ks]]
      ensures closedEnd == old(closedEnd) + [old(openEnd)[ke]]
      ensures LinksDown(closedStart) && LinksDown(closedEnd)
      ensures intersect == Common(openStart, openEnd)
      ensures Valid()
      ensures |closedStart| <= grid.width * grid.height && |closedEnd| <= grid.width * grid.height
    {
      ks, ke := CloseMinima();
      ExpandEnd(|closedEnd| - 1);
      ExpandStart(|closedStart| - 1);
      CheckIntersection();
      SideLinksDown(closedStart);
      SideLinksDown(closedEnd);
    }

    /**
     * The end of bi_astar once the open lists meet: the joined chains (raw), string-pulled
     * (keys), densified and reversed, so the path runs from next to the start up to the end.
     */
    method Finish() returns (path: seq<Cell>, ghost raw: seq<Cell>, ghost keys: seq<Cell>, ghost idx: seq<int>, ghost k: nat)
      requires Valid() && |closedStart| > 0 && |closedEnd| > 0 && |intersect| > 0
      requires forall j :: 0 <= j < |intersect| ==> intersect[j] in Positions(openStart) && intersect[j] in Positions(openEnd)
      ensures Joined(openStart, closedStart, openEnd, closedEnd, intersect, k, raw)
      ensures Planned(grid, startNode.pos, endNode.pos, raw, keys, idx, path)
    {
      var joined, meet := Reconstruct();
      raw, k := joined, meet;
      var smoothed;
      smoothed, idx := PathSmoothing(grid, joined);
      keys := smoothed;
      var dense := PathArgument(smoothed);
      path := Reverse(dense);
      PlannedResult(grid, raw, keys, idx, startNode.pos, endNode.pos);
    }

    /**
     * bi_astar: reset both searches, then per round close the minimum-f node of each side,
     * expand the end side then the start side over the eight neighbours, and stop at the
     * first round whose open lists share a cell. Each side closes at most one node per map
     * cell, so the rounds are bounded.
     */
    method BiAstar(gridmap: GridMap, start: Cell, end: Cell)
        returns (result: PlanResult, ghost raw: seq<Cell>, ghost keys: seq<Cell>, ghost idx: seq<int>, ghost k: nat)
      requires gridmap.WellFormed() && gridmap.InBounds(start) && gridmap.InBounds(end)
      modifies this
      ensures grid == gridmap && startNode == Root(start) && endNode == Root(end) && Valid()
      ensures |closedStart| == |closedEnd| <= gridmap.width * gridmap.height
      ensures result.SearchFailed? ==> intersect == [] && (|openStart| == 0 || |openEnd| == 0)
      ensures result.Found? ==> intersect == Common(openStart, openEnd) && |intersect| > 0
      ensures result.Found? ==> Joined(openStart, closedStart, openEnd, closedEnd, intersect, k, raw)
      ensures result.Found? ==> Planned(gridmap, start, end, raw, keys, idx, result.path)
    {
      startNode := Root(start);
      endNode := Root(end);
      grid := gridmap;
      openStart, closedStart := [startNode], [];
      openEnd, closedEnd := [endNode], [];
      intersect := [];
      raw, keys, idx, k := [], [], [], 0;
      InitialSide(grid, start);
      InitialSide(grid, end);
      while true
        invariant grid == gridmap && startNode == Root(start) && endNode == Root(end) && Valid()
        invariant intersect == []
        invariant |closedStart| == |closedEnd| <= gridmap.width * gridmap.height
        decreases gridmap.width * gridmap.height - |closedStart|
      {
        if |openStart| == 0 || |openEnd| == 0 {
          result := SearchFailed;
          return;
        }
        var ks, ke := Round();
        if |intersect| > 0 {
          forall j | 0 <= j < |intersect|
            ensures intersect[j] in Positions(openStart) && intersect[j] in Positions(openEnd)
          {
            assert intersect[j] in Common(openStart, openEnd);
          }
          var path;
          path, raw, keys, idx, k := Finish();
          result := Found(path);
          return;
        }
      }
    }
  }

  /** Every one of the eight offsets is a unit neighbour offset. */
  lemma NeighboursUnit()
    ensures forall j :: 0 <= j < |Neighbours| ==> UnitOffset(Neighbours[j].0, Neighbours[j].1)
  {
  }

  /** The planned path stays on the grid and has the shape PlannedPathShape describes. */
  lemma PlannedResult(m: GridMap, raw: seq<Cell>, keys: seq<Cell>, idx: seq<int>, start: Cell, end: Cell)
    requires m.WellFormed() && |raw| >= 2 && raw[0] == end && raw[|raw| - 1] == start
    requires forall j :: 0 <= j < |KeyPoints(raw)| ==> m.InBounds(KeyPoints(raw)[j])
    requires Smoothed(m, KeyPoints(raw), keys, idx)
    ensures var path := Reverse(Densify(keys));
      && (forall j :: 0 <= j < |path| ==> m.InBounds(path[j]))
      && (forall j :: 0 <= j < |path| - 1 ==> Chebyshev(path[j], path[j + 1]) == 1)
      && (start != end ==> |path| >= 1 && path[|path| - 1] == end && Chebyshev(path[0], start) == 1)
  {
    var kp := KeyPoints(raw);
    assert forall j :: 0 <= j < |keys| ==> m.InBounds(keys[j]) by {
      forall j | 0 <= j < |keys| ensures m.InBounds(keys[j]) {
        assert keys[j] == kp[idx[j]];
      }
    }
    DensifyInBounds(m, keys);
    var d := Densify(keys);
    var path := Reverse(d);
    forall j | 0 <= j < |path| ensures m.InBounds(path[j]) {
      assert path[j] == d[|d| - 1 - j];
    }
    assert keys[0] == kp[0] && keys[|keys| - 1] == kp[|kp| - 1];
    PlannedPathShape(keys, start, end);
  }
}

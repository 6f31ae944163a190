# Bidirectional A* global planner — a Dafny model

This project models the grid planner of the `rto_global_planner` package
(`rto_global_planner/src/astar_planner_bidirectional.py`). The planner plans over a
2-D occupancy grid. It grows one A* search from the start cell and one from the goal
cell, one node per side per round, until the two open lists share a cell. It then
joins the two parent chains through the cheapest shared cell. The joined path is
simplified to its turning points (`get_key_point`) and string-pulled past
obstacle-free shortcuts (`Path_smoothing`). It is then re-densified to 8-connected
cells (`Path_argument`) and reversed. The model also covers the goal check
`main.check_valid`.

Files and modules:

- `grid.dfy` (`Grid`):
  - cells, the cost map `GridMap` (indexed `cells[x][y]`, as the planner reads it), and Python's truncating `int()` of a quotient (`TruncDiv`);
  - `check_valid`;
  - the counting argument that a duplicate-free list of cells on a `W × H` map has at most `W·H` entries.
- `line_of_sight.dfy` (`LineOfSight`): the digital line shared by `check_obstacle` and `Path_argument`, and `check_obstacle` itself.
- `simplifier.dfy` (`Simplifier`): `get_key_point` and `Path_smoothing`.
- `densifier.dfy` (`Densifier`): `Path_argument`.
- `frontier.dfy` (`Frontier`):
  - `Node_start` / `Node_end` as one `Node` datatype;
  - `getMinNode`, `pointInCloseList`, `pointInOpenList`, `check_direction`;
  - the body of `search_start` / `search_end` on one side's lists (`Relax`, `Search`) and the invariant it keeps;
  - `check_intersection`'s result (`Common`), the meeting-cell selection and the parent-chain walks of `bi_astar`.
- `planner.dfy` (`BidirectionalPlanner`): the class `Planner` with the six lists of `Bidirectional_Astar_Planner` as fields. Its methods are `search_start`, `search_end`, `check_intersection` and `bi_astar`; `bi_astar` is split into its round, its closing step and its path reconstruction.

A node's `parent` is an object reference in Python. Here it is the index of the parent
in the same side's closed list. Every parent is the node that was closed last when the
link was made, and a closed node is never modified again. So the closed list serves as
the arena: parents always point to earlier closed entries, and the parent walk terminates.

The costs `g`, `h`, `f` are `real`. The diagonal step `np.sqrt(2)` is the constant
`DiagonalStep`, the nearest double. The minor coordinate of the line, `int(a + i*d/m)`,
is computed exactly with `TruncDiv` (truncation toward zero).

The side invariant `Frontier.SideInv` holds on both sides after every round:
- every position is on the map;
- open positions are distinct and disjoint from the closed ones, and closed positions are distinct;
- every parent is an earlier-closed 8-neighbour;
- the root is the first node closed.

It gives:
- the bound of `W·H` closed nodes per side, which is also the termination measure of `bi_astar`;
- the fact that `list.remove`, which finds the first node at the same position, removes exactly the node that `getMinNode` returned, because open positions are distinct;
- parent chains that end at the side's root.

Behaviour of the code worth knowing:

- The returned path leaves out the start cell. It begins at an 8-neighbour of the start, not at the start itself.
- No `start == end` guard exists. When the two coincide on a map of more than one cell, the raw path is `[end, c, start]`, the key points are `[end, start]`, and the dense path is empty. On a 1 × 1 map the first round opens no neighbour, and the second round calls `getMinNode([])`, which raises.
- Only the goal is validated (`check_valid`); the start never is. The model nonetheless requires the start to be on the map too (see "Left out").
- The search refuses no cell for its cost: occupied cells are expanded like any other. Costs matter in the heuristic (`0.9 · cost`) and in the line-of-sight test, and nowhere else.
- The minor coordinate of the line is truncated toward zero (Python's `int`).
- `check_direction` returns 5 at a change of direction. Its own docstring (lines 222-224) says it returns 1.
- The start-side chain of the reconstructed path begins at the start-side node of the LAST shared cell. It does not begin at the cheapest one, which only selects the goal-side chain.
- `get_key_point` never keeps the second-to-last point: it reads it to compute the last direction pair, but never tests it as a turn. A one-point path gives `[p, p]`.
- Neither simplification pass is idempotent. `get_key_point` always drops the second-to-last point of a path of three or more points, so running it on its own output of three or more points shortens it again. `Path_smoothing` starts with `get_key_point`, so running it again on an output of three or more points shortens that output too.

## Model

| member | source | states |
|---|---|---|
| Grid.CheckValid | rto_global_planner/src/astar_planner_bidirectional.py:521-531 | the goal is accepted exactly when it lies on the map and its cost is strictly between -1 and 90 |
| Grid.DistinctCellsBound | rto_global_planner/src/astar_planner_bidirectional.py:382-392 | a duplicate-free list of on-map cells has at most width·height entries (the bound on every closed list) |
| LineOfSight.Sample | rto_global_planner/src/astar_planner_bidirectional.py:71-114 | every sample of the walk from a toward b lies between a and b on both axes |
| LineOfSight.SampleEndpoints | rto_global_planner/src/astar_planner_bidirectional.py:75-114 | sample 0 is a, sample max(\|dx\|,\|dy\|) is b, and no earlier sample is b, so b is never examined |
| LineOfSight.SampleAdjacent | rto_global_planner/src/astar_planner_bidirectional.py:79-114 | for cells with non-negative coordinates, successive samples are 8-neighbours |
| LineOfSight.MinorStep | rto_global_planner/src/astar_planner_bidirectional.py:81 | the truncated minor coordinate moves by at most one per step |
| LineOfSight.CheckObstacle | rto_global_planner/src/astar_planner_bidirectional.py:62-114 | true exactly when some sample 0 .. max(\|dx\|,\|dy\|)-1 (x-major when \|dx\| > \|dy\|, y-major on ties) has cost above 50; a cell is never blocked from itself |
| LineOfSight.BlockedStart | rto_global_planner/src/astar_planner_bidirectional.py:79-83 | a blocked first cell blocks the line to any other cell |
| Simplifier.TurnsBelow | rto_global_planner/src/astar_planner_bidirectional.py:127-131 | the turning indices below hi, increasing; k is in the list exactly when the direction changes at k |
| Simplifier.KeyIndices | rto_global_planner/src/astar_planner_bidirectional.py:122-135 | the kept indices are 0, len-1 and exactly the turning k with 1 <= k <= len-3 (len-2 is never kept), increasing |
| Simplifier.KeyPoints | rto_global_planner/src/astar_planner_bidirectional.py:122-135 | the key points keep both end points and are the subsequence at KeyIndices; a 1-point path gives [p, p] and a 2-point path is unchanged |
| Simplifier.GetKeyPoint | rto_global_planner/src/astar_planner_bidirectional.py:116-135 | the loop returns exactly KeyPoints(path) |
| Simplifier.SmoothedStart | rto_global_planner/src/astar_planner_bidirectional.py:142-150 | the key points themselves satisfy the smoothing invariant (identity picks) |
| Simplifier.DropPicked | rto_global_planner/src/astar_planner_bidirectional.py:155 | popping entry k+1 of a picked subsequence leaves a picked subsequence |
| Simplifier.PopClear | rto_global_planner/src/astar_planner_bidirectional.py:154-155 | popping the point after r[k], when the shortcut from r[k] to the key point after it is clear, keeps a subsequence with the same end points in which every skipped key point was checked clear from its kept predecessor |
| Simplifier.IncreasingBound | rto_global_planner/src/astar_planner_bidirectional.py:122-162 | a strictly increasing list of indices in [0, hi) has at most hi entries (the counting step behind both shrinking lemmas) |
| Simplifier.KeyPointsShrinks | rto_global_planner/src/astar_planner_bidirectional.py:122-135 | get_key_point drops at least one point of every path of three or more points, since index len-2 is never kept |
| Simplifier.KeyPointsNotIdempotent | rto_global_planner/src/astar_planner_bidirectional.py:116-135 | applied to its own output of three or more points, get_key_point changes it |
| Simplifier.SmoothingNotIdempotent | rto_global_planner/src/astar_planner_bidirectional.py:137-162 | Path_smoothing run again on an output of three or more points returns a strictly shorter path |
| Simplifier.KeptPrefix | rto_global_planner/src/astar_planner_bidirectional.py:151-161 | popping past position n leaves the reasons for keeping the first n inner points intact |
| Simplifier.PopStep | rto_global_planner/src/astar_planner_bidirectional.py:153-157 | one pass of the inner loop (a clear shortcut, then path.pop(i + 1)) keeps the result smoothed, untouched after i + 1, and keeps the earlier reasons |
| Simplifier.BlockedStep | rto_global_planner/src/astar_planner_bidirectional.py:153-160 | when the inner loop stops at a blocked shortcut r[i] -> r[i + 2], r[i + 2] is the key point after r[i + 1], so r[i + 1] is kept for that reason |
| Simplifier.Pull | rto_global_planner/src/astar_planner_bidirectional.py:146-162 | the two loops terminate; the result is Smoothed (every skipped key point was checked clear from the kept point before it) and Kept (every kept inner point stays because the shortcut past it is blocked); two key points are returned unchanged |
| Simplifier.KeyPointsInBounds | rto_global_planner/src/astar_planner_bidirectional.py:116-135 | the key points of an on-map path are on the map |
| Simplifier.PathSmoothing | rto_global_planner/src/astar_planner_bidirectional.py:137-162 | the result is the Smoothed and Kept string-pulling of KeyPoints(path): a subsequence keeping both end points in which every skipped key point was tested clear and every kept inner point was kept because the next shortcut is blocked; two key points are returned unchanged |
| Simplifier.NotPast | rto_global_planner/src/astar_planner_bidirectional.py:151-161 | a smoothing that agrees with a Kept one at position j cannot skip past its point j + 1 |
| Simplifier.SmoothedStep | rto_global_planner/src/astar_planner_bidirectional.py:151-161 | two Smoothed and Kept results of the same key points that agree at j agree at j + 1 |
| Simplifier.SmoothedPrefix | rto_global_planner/src/astar_planner_bidirectional.py:151-161 | two such results agree on their common prefix |
| Simplifier.SmoothingUnique | rto_global_planner/src/astar_planner_bidirectional.py:137-162 | at most one path is Smoothed and Kept for given key points, so PathSmoothing's contract determines its result exactly |
| Densifier.Segment | rto_global_planner/src/astar_planner_bidirectional.py:190-216 | the cells emitted for one key-point pair: Chebyshev(a, b) samples of the line, beginning at a unless a == b, never containing b |
| Densifier.Densify | rto_global_planner/src/astar_planner_bidirectional.py:164-218 | the dense path's length is the sum of max(\|dx\|,\|dy\|) over consecutive key points |
| Densifier.PathArgument | rto_global_planner/src/astar_planner_bidirectional.py:164-218 | the loop returns exactly Densify(path) |
| Densifier.AppendSegment | rto_global_planner/src/astar_planner_bidirectional.py:190-216 | the inner loops append exactly Segment(a, b) to what was emitted so far |
| Densifier.DensifyLast | rto_global_planner/src/astar_planner_bidirectional.py:174-217 | one outer iteration extends the dense path by the last segment and its length by that segment's steps |
| Densifier.DensifyPrefix | rto_global_planner/src/astar_planner_bidirectional.py:174-217 | the dense path of a prefix of the key points is a prefix of the dense path |
| Densifier.DensifyBlock | rto_global_planner/src/astar_planner_bidirectional.py:174-217 | block s of the dense path, at offset TotalSteps of the first s+1 key points, is exactly segment s, so it starts at key point s and the final key point is never emitted |
| Densifier.DensifyInBounds | rto_global_planner/src/astar_planner_bidirectional.py:164-218 | with every key point on the map, every dense cell is on the map |
| Densifier.SegmentWalk | rto_global_planner/src/astar_planner_bidirectional.py:190-216 | a segment is an 8-connected walk from a whose last cell neighbours b, empty exactly when a == b |
| Densifier.WalkJoin | rto_global_planner/src/astar_planner_bidirectional.py:174-217 | concatenated walks p→q and q→r form a walk p→r |
| Densifier.DensifyWalk | rto_global_planner/src/astar_planner_bidirectional.py:164-218 | the dense path is an 8-connected walk from the first key point whose last cell neighbours the final key point, empty only when those two coincide |
| Frontier.GetMinNode | rto_global_planner/src/astar_planner_bidirectional.py:235-245 | returns the index of the first node of minimal f |
| Frontier.PointInCloseList | rto_global_planner/src/astar_planner_bidirectional.py:247-254 | true exactly when some node of the list sits at the position |
| Frontier.PointInOpenList | rto_global_planner/src/astar_planner_bidirectional.py:256-263 | the index of the first node at the position, None exactly when no node is there |
| Frontier.CheckDirection | rto_global_planner/src/astar_planner_bidirectional.py:220-233 | the penalty is 0 or 5, and 5 exactly when the parent has a parent and the step grandparent→parent differs from parent→child |
| Frontier.Root | rto_global_planner/src/astar_planner_bidirectional.py:365-368 | a root node sits at its cell with no parent and g = h = f = 0 |
| Frontier.StepCost | rto_global_planner/src/astar_planner_bidirectional.py:295-313 | the step cost is at least 1, and for a unit offset its square is within 1e-15 of dx² + dy² (1 straight, sqrt 2 diagonal) |
| Frontier.Heuristic | rto_global_planner/src/astar_planner_bidirectional.py:296-302 | the heuristic before the turn penalty: on a cell of non-negative cost, it is at least the Manhattan distance to the other root; at that root it is 0.9·cost |
| Frontier.Relax | rto_global_planner/src/astar_planner_bidirectional.py:280-355 | one search_start / search_end call leaves the open list the same length or one node longer (its full effect is RelaxSpec) |
| Frontier.Expand | rto_global_planner/src/astar_planner_bidirectional.py:395-411 | the relaxations over the offsets keep the existing open nodes at their positions and add at most one node per offset |
| Frontier.RelaxSpec | rto_global_planner/src/astar_planner_bidirectional.py:275-355 | search_start / search_end: off the map or closed changes nothing; an unseen position is appended with parent the closed node, g = parent g + step cost and h = Manhattan distance to the other root + 0.9·cost + turn penalty, f = g + h; an open node at the position gets the lower g and the new parent exactly when that is strictly cheaper (a tie keeps the old parent), with h and f left stale; no other node changes |
| Frontier.Search | rto_global_planner/src/astar_planner_bidirectional.py:275-314 | the branching of search_start / search_end returns exactly Relax |
| Frontier.RemoveAt | rto_global_planner/src/astar_planner_bidirectional.py:390-392 | removing one node shifts later nodes down by one and keeps earlier ones |
| Frontier.RemoveSame | rto_global_planner/src/astar_planner_bidirectional.py:387-392 | with distinct open positions, the first node at open[k]'s position is open[k] itself |
| Frontier.RemoveFirst | rto_global_planner/src/astar_planner_bidirectional.py:388-390 | `list.remove(n)` for nodes compared by position: drops the first node at that position, never lengthening the list |
| Frontier.RemoveFirstAt | rto_global_planner/src/astar_planner_bidirectional.py:385-392 | with distinct open positions, removal by open[k]'s position is exactly removal at index k |
| Frontier.CloseChosen | rto_global_planner/src/astar_planner_bidirectional.py:385-392 | closing the node getMinNode chose: `list.remove` removes that index, the closed list stays within width·height, and the side invariant holds afterwards |
| Frontier.InitialSide | rto_global_planner/src/astar_planner_bidirectional.py:374-377 | a side with only its root open satisfies the side invariant |
| Frontier.CloseBound | rto_global_planner/src/astar_planner_bidirectional.py:385-392 | a side never closes more nodes than the map has cells |
| Frontier.CloseKeepsSide | rto_global_planner/src/astar_planner_bidirectional.py:385-392 | moving an open node to the end of the closed list keeps the side invariant |
| Frontier.RelaxCases | rto_global_planner/src/astar_planner_bidirectional.py:280-314 | a relaxation leaves the list unchanged, appends a fresh on-map node not yet open or closed, or replaces the open node at its position; a new or updated node's parent is the adjacent closed node |
| Frontier.RelaxAppendSide | rto_global_planner/src/astar_planner_bidirectional.py:291-307 | appending a fresh node whose parent is an adjacent closed node keeps the side invariant |
| Frontier.RelaxUpdateSide | rto_global_planner/src/astar_planner_bidirectional.py:308-314 | re-parenting an open node to an adjacent closed node keeps the side invariant |
| Frontier.RelaxKeepsSide | rto_global_planner/src/astar_planner_bidirectional.py:275-314 | one relaxation keeps open positions unique, on the map and disjoint from the closed ones, and parents closed and adjacent |
| Frontier.ExpandKeepsSide | rto_global_planner/src/astar_planner_bidirectional.py:395-411 | the eight relaxations of a round keep the side invariant |
| Frontier.ExpandStep | rto_global_planner/src/astar_planner_bidirectional.py:395-411 | the expansion over one more offset is one more relaxation |
| Frontier.Chain | rto_global_planner/src/astar_planner_bidirectional.py:429-431 | the parent walk from a closed node starts at that node's position |
| Frontier.NodeChain | rto_global_planner/src/astar_planner_bidirectional.py:428-437 | the parent walk from any node starts at that node's position |
| Frontier.SideTree | rto_global_planner/src/astar_planner_bidirectional.py:385-392 | a side's closed list is a tree of 8-neighbour links rooted at its first node |
| Frontier.SideLinksDown | rto_global_planner/src/astar_planner_bidirectional.py:429-437 | every closed parent index is below its child's, so the parent walk terminates |
| Frontier.ChainToRoot | rto_global_planner/src/astar_planner_bidirectional.py:429-437 | a closed node's parent walk ends at the side's root, stays on the map and moves between 8-neighbours |
| Frontier.ChainCons | rto_global_planner/src/astar_planner_bidirectional.py:430 | prefixing an adjacent on-map cell keeps a chain on the map and 8-connected |
| Frontier.OpenChainToRoot | rto_global_planner/src/astar_planner_bidirectional.py:428-437 | once a side has closed a node, an open node's parent walk has >= 2 cells, ends at the root and is 8-connected on the map |
| Frontier.OpenNodeChain | rto_global_planner/src/astar_planner_bidirectional.py:428-437 | the same for the open node found at a position |
| Frontier.Common | rto_global_planner/src/astar_planner_bidirectional.py:265-273 | the cells check_intersection collects are exactly those open on both sides, in start-side order |
| Frontier.CommonSnoc | rto_global_planner/src/astar_planner_bidirectional.py:269-272 | one more start-side node adds its position exactly when it is open on the end side |
| Frontier.NodeAt | rto_global_planner/src/astar_planner_bidirectional.py:417-420 | the node pointInOpenList returns at an open position sits at that position |
| Frontier.MeetingFs | rto_global_planner/src/astar_planner_bidirectional.py:417-421 | one summed f per shared cell |
| Frontier.SelectMeeting | rto_global_planner/src/astar_planner_bidirectional.py:414-424 | minpos is the first shared cell of minimal summed f; node_start is the start-side node at the LAST shared cell |
| Frontier.SelectStep | rto_global_planner/src/astar_planner_bidirectional.py:418-424 | one pass keeps the first minimum over one more cell and reads node_start at that cell |
| Frontier.MinimumStep | rto_global_planner/src/astar_planner_bidirectional.py:422-424 | the strict `<` update extends a first minimum of a prefix to the next prefix |
| Frontier.Trace | rto_global_planner/src/astar_planner_bidirectional.py:428-437 | the walk along parent links returns exactly NodeChain |
| BidirectionalPlanner.PlannedPathShape | rto_global_planner/src/astar_planner_bidirectional.py:443-446 | the reversed dense path is 8-connected and, when start and end differ, non-empty, ends at end and begins next to start |
| BidirectionalPlanner.JoinChains | rto_global_planner/src/astar_planner_bidirectional.py:427-437 | the joined chains run from end to start and stay on the map |
| BidirectionalPlanner.PlannedResult | rto_global_planner/src/astar_planner_bidirectional.py:439-446 | smoothing, densifying and reversing a joined path gives an on-map, 8-connected path ending at end and beginning next to start |
| BidirectionalPlanner.NeighboursUnit | rto_global_planner/src/astar_planner_bidirectional.py:395-411 | the eight expanded offsets are unit neighbour offsets |
| BidirectionalPlanner.Planner.constructor | rto_global_planner/src/astar_planner_bidirectional.py:540 | a fresh planner has empty lists |
| BidirectionalPlanner.Planner.SearchStart | rto_global_planner/src/astar_planner_bidirectional.py:275-314 | the start-side open list becomes Relax toward the end root; nothing else changes |
| BidirectionalPlanner.Planner.SearchEnd | rto_global_planner/src/astar_planner_bidirectional.py:316-355 | the end-side open list becomes Relax toward the start root; nothing else changes |
| BidirectionalPlanner.Planner.ExpandStart | rto_global_planner/src/astar_planner_bidirectional.py:404-411 | the eight search_start calls, in order, give Expand over the eight offsets and keep the start-side invariant |
| BidirectionalPlanner.Planner.ExpandEnd | rto_global_planner/src/astar_planner_bidirectional.py:395-402 | the eight search_end calls, in order, give Expand over the eight offsets and keep the end-side invariant |
| BidirectionalPlanner.Planner.CheckIntersection | rto_global_planner/src/astar_planner_bidirectional.py:265-273 | intersect gains exactly Common(openStart, openEnd) |
| BidirectionalPlanner.Planner.CloseMinima | rto_global_planner/src/astar_planner_bidirectional.py:385-392 | each side appends its first minimum-f open node to its closed list and removes it from the open list by position (list.remove), which equals removal at getMinNode's index; both side invariants and the width·height bound hold |
| BidirectionalPlanner.Planner.Round | rto_global_planner/src/astar_planner_bidirectional.py:382-413 | one round closes the first minimum of each side, keeps both invariants and leaves intersect equal to the cells open on both sides |
| BidirectionalPlanner.Planner.Reconstruct | rto_global_planner/src/astar_planner_bidirectional.py:414-437 | Joined: the joined path is the reversed end-side chain from the node at minpos without minpos, followed by the start-side chain from the node at the last shared cell; minpos (index k) is the first shared cell of minimal summed f; it runs from end to start on the map |
| BidirectionalPlanner.Planner.Finish | rto_global_planner/src/astar_planner_bidirectional.py:426-446 | the returned path is the reverse of Densify of keys, the Smoothed and Kept string-pulling of the key points of the joined path raw (the one result Path_smoothing can return), where raw is tied by Joined to the two parent chains through the first minimal-f shared cell k and the last shared cell; with the shape of PlannedPathShape |
| BidirectionalPlanner.Planner.BiAstar | rto_global_planner/src/astar_planner_bidirectional.py:357-446 | terminates with at most width·height closed nodes per side; fails only when an open list runs dry (getMinNode on []); on success the open lists meet, the raw path is Joined from the two sides' parent chains, its key points are string-pulled as Path_smoothing does (Smoothed and Kept), and the returned path is the planned, 8-connected, on-map path from next to the start up to the end |

## Left out

- The ROS node (`main.__init__`, the three callbacks, `run`): its subscribers, publishers and messages are I/O. `bi_astar`'s inputs become method parameters.
- World ↔ grid conversion in `callback_pos`, `callback_goal` and `run`: it is an affine map owned by the map provider and uses floats.
- The `numpy` reshape and transpose of the occupancy data: `GridMap` is given already indexed as `cells[x][y]`.
- IEEE floating point: `g`, `h`, `f` are exact reals, and `np.sqrt` of a unit offset is 1 or the constant `DiagonalStep`. Rounding and comparison of doubles are not modelled. The minor coordinate `int(a + i*d/m)` is the exact truncated quotient; for map-sized integers the double computation gives the same cell.
- The commented-out alternative heuristics are not modelled.
- Object identity: a node's parent is an index into its side's closed list, not a shared object. This is sound because closed nodes are never modified after closing.
- BidirectionalPlanner.Planner.BiAstar: requires the start cell to be on the map, because the side invariant keeps every node on the map, the root included, and an off-map root is not covered. The source never reads the start's own cell: neighbours are bounds-checked before the map is read, and `check_obstacle` and `Path_argument` stop before their end point. So a start one cell off the map plans in the source as any other start. A start two or more cells off opens no neighbour in the first round, and the second round raises `IndexError` from `getMinNode([])`.
- BidirectionalPlanner.Planner.BiAstar: the failure on an empty open list is a `SearchFailed` result. The source raises `IndexError` from `getMinNode`.
- BidirectionalPlanner.Planner.Round: its ensures do not restate the new open lists. Those are stated by BidirectionalPlanner.Planner.ExpandStart and BidirectionalPlanner.Planner.ExpandEnd, which Round calls in the source's order (end side first).
- The no-op test `if abs(disy) == 1 and abs(disy) == 1: pass` in `Path_argument` has no effect and is not modelled.

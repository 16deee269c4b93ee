# Stepwise grid pathfinding — a Dafny model

This project models the core of a small grid-racing game: four resumable
pathfinders (A*, Dijkstra, Greedy best-first and Uniform-Cost) that share a
neighbour generator. Around them sit the editable occupancy grid that feeds
them, the player agent's checked move, and the step history of the testing
scene, which can step a search forward and back.

Each pathfinder is a `class` whose fields are the ones the Python code
mutates: the open and closed lists, the path, the finished flag and, except
for Uniform-Cost, the iteration counter. `Step` is proved equal to one shared
specification function, `SearchSpec.StepSpec`. It is parameterised by a
`Policy`, which fixes the selection key, the scores and the duplicate rule.

The search invariant `WellFormed` is proved to hold after initialisation and
after every step. It says:
- every open and closed node is a grid neighbour of its closed parent;
- every node's `g` is its parent's `g` plus the move cost;
- every node's `h` and `f` follow the variant's formula;
- parent indices point backwards in the closed list;
- a finished search holds the path rebuilt from the goal's parent chain.

From the invariant, a found path is proved to run from the start to the goal
through neighbours. Every position on it after the start is in bounds and
free, and its cost is the goal node's `g`.

A Python node holds a `padre` reference to its parent node. Here a node
(`SearchNodes.Node`) instead holds the index of its parent in the closed
list. This is equivalent because:
- a node's parent is always the node just closed;
- closed entries are never modified afterwards (Uniform-Cost rewrites only
  open entries).

This index form is also why a snapshot, which the scene takes with a deep
copy, is simply the value `Snap()`. Restoring it rebuilds the same parent
chains.

Modules, one per source file:
- `Geometry`: positions, cell states and the occupancy view of a grid.
- `PathfinderBase`: the neighbour generator (algorithms/pathfinder_base.py).
- `SearchNodes`: nodes, the minimum scan and path reconstruction, which the
  four variants share.
- `SearchSpec`: one step as a function of the exposed state, the invariant,
  and the lemmas about both.
- `AStar`, `Dijkstra`, `Greedy`, `UniformCost`: the four pathfinder classes.
- `Grids`: the editable grid (components/grid.py).
- `Agents`: the player agent (components/agent.py).
- `Testing`: the history of the testing scene (scenes/testing_scene.py).

Properties of the code worth knowing:
- **Heuristic.** The A* and Greedy heuristic is the squared Euclidean
  distance `dx² + dy²` (algorithms/a_star.py:147-148,
  algorithms/greedy.py:140-142). The code defines no Manhattan or octile
  heuristic.
- **Greedy duplicates.** Greedy never holds two open entries for one
  position. Its `f` depends only on the position, so the duplicate test
  (`f >= f` of an open entry at the same position) always rejects a position
  already open. This is proved (`GreedyRejectsOpenPosition`). Like
  Uniform-Cost, Greedy therefore keeps open and closed positions distinct
  and disjoint, and its complete run provably ends.
- **Revisiting positions.** A* and Dijkstra can close the same position
  twice. A worse entry appended before a better one is still open when the
  better one is closed, and it is later closed too. So "positions are never
  revisited" holds only for Greedy and Uniform-Cost.
- **Iteration counter.** Uniform-Cost has no iteration counter.

## Model

| member | source | states |
|---|---|---|
| PathfinderBase.GetNeighborsAndCosts | algorithms/pathfinder_base.py:12-50 | the loop's result is `Neighbors`: the offsets tried in order, with off-grid and obstacle cells skipped, each with its cost |
| PathfinderBase.ScanIsOrderedFilter | algorithms/pathfinder_base.py:31-48 | the generator returns exactly the accepted offsets, each once, in the order tried, each shifted from `p` with its move cost |
| PathfinderBase.NeighborsFollowOffsetOrder | algorithms/pathfinder_base.py:21-48 | results follow the order (0,-1), (0,1), (-1,0), (1,0), then the four diagonals, with rejected offsets skipped and every accepted one present |
| PathfinderBase.NeighborsCount | algorithms/pathfinder_base.py:21-29 | at most 4 results without diagonals, at most 8 with them |
| PathfinderBase.NeighborsSound | algorithms/pathfinder_base.py:31-48 | every result is in bounds, not an obstacle, not `p`, within 1 in each coordinate, straight when diagonals are off; its cost is √2 exactly when both coordinates change, and 1 otherwise |
| PathfinderBase.MoveShape | algorithms/pathfinder_base.py:21-46 | each tried offset leads to a different adjacent cell, straight unless diagonals are on, and costs √2 exactly when diagonal |
| PathfinderBase.NeighborsComplete | algorithms/pathfinder_base.py:31-48 | conversely, every free in-bounds cell adjacent along an allowed offset is returned |
| PathfinderBase.OffsetIndex | algorithms/pathfinder_base.py:21-29 | every non-zero offset in -1..1 (straight when diagonals are off) is among the offsets tried |
| SearchNodes.MinIndexIsFirstMin | algorithms/a_star.py:111-116 | the selection scan picks the first open entry of minimal key |
| SearchNodes.SelectFirstMin | algorithms/uniform_cost.py:116-121 | the scan loop returns the first index of minimal key (f, or g for Uniform-Cost), which is the specification's `MinIndex` |
| SearchNodes.FirstMinUnique | algorithms/a_star.py:111-116 | at most one index is the first of minimal key |
| SearchNodes.ReconstructPath | algorithms/a_star.py:163-170 | walking the parent links and reversing gives the positions of the parent chain, root first (`Chain`) |
| SearchNodes.Reverse | algorithms/a_star.py:170 | `camino[::-1]`: same length, entry `i` is entry `n-1-i` of the input |
| SearchNodes.SquaredDistance | algorithms/greedy.py:140-142 | the heuristic is non-negative, and zero exactly when the positions coincide |
| SearchSpec.FindAtFirst | algorithms/uniform_cost.py:158-162 | the lookup finds the first open entry at the position, and finds none exactly when no entry is there |
| SearchSpec.InitialWellFormed | algorithms/a_star.py:92-101 | the initial state (only the start node open) satisfies the search invariant |
| SearchSpec.CandidateOk | algorithms/a_star.py:146-149 | a scored neighbour of the node just closed is a grid neighbour of it, with g = parent g + move cost and the variant's h and f |
| SearchSpec.ConsiderKeepsOpenOk | algorithms/uniform_cost.py:147-172 | processing one neighbour (skip, append, or relax in place) keeps every open node consistent, and keeps positions unique where the variant does |
| SearchSpec.RelaxKeepsOpenOk | algorithms/uniform_cost.py:164-168 | overwriting g, f and parent of the open entry at the candidate's position keeps the open list consistent |
| SearchSpec.ExpandKeepsOpenOk | algorithms/a_star.py:142-154 | processing all neighbours in order keeps the open list consistent |
| SearchSpec.CloseKeepsNodes | algorithms/a_star.py:118-120 | moving an open entry to the end of the closed list keeps every node consistent and closed positions distinct where the variant keeps them so |
| SearchSpec.CloseKeepsLinked | algorithms/a_star.py:118-120 | after the move, every parent index still points to an earlier closed entry |
| SearchSpec.StepKeepsWellFormed | algorithms/a_star.py:103-130 | every step keeps the search invariant |
| SearchSpec.StepsKeepWellFormed | algorithms/a_star.py:156-161 | any number of steps from a well-formed state keep the invariant |
| SearchSpec.StepsAdvance | algorithms/dijkstra.py:186-187 | one more step from the state after n steps is the state after n + 1 steps |
| SearchSpec.ScoresNonNegative | algorithms/a_star.py:146-149 | every node has g ≥ 0 and h ≥ 0, and f ≥ g except for Greedy |
| SearchSpec.ChainIsValidPath | algorithms/a_star.py:163-170 | a closed node's parent chain starts at the start, ends at the node, steps through grid neighbours, and its move costs add up to the node's g |
| SearchSpec.ExtendPath | algorithms/a_star.py:137-146 | a path extended by a neighbour of its end stays valid, and its cost grows by that move's cost |
| SearchSpec.FinishedPathIsValid | algorithms/a_star.py:123-126 | a finished search's path runs from start to goal through neighbours, over in-bounds free cells, at cost g of the goal node |
| SearchSpec.ValidPathOnFreeCells | algorithms/pathfinder_base.py:35-40 | every position after the first of a neighbour path is in bounds and not an obstacle |
| SearchSpec.GreedyRejectsOpenPosition | algorithms/greedy.py:165-167 | a Greedy neighbour whose position is already open is always discarded |
| SearchSpec.NodeInUniverse | algorithms/pathfinder_base.py:35-36 | every node stands on the start or on a grid cell |
| SearchSpec.StepClosesSelected | algorithms/a_star.py:118-120 | a step appends the selected open entry to the closed list |
| SearchSpec.ClosingNewShrinks | algorithms/uniform_cost.py:124-125 | closing a position not closed before shrinks the set still to close |
| SearchSpec.StepShrinksUnexplored | algorithms/uniform_cost.py:174-180 | for Greedy and Uniform-Cost each expanding step closes a new position, so the complete run terminates |
| SearchSpec.StepMovesFirstMinimum | algorithms/a_star.py:108-130 | a step moves the first open entry of minimal key to closed (open shrinks by one first), then either finishes at the goal or processes that node's neighbours |
| SearchSpec.ExpandOnlyAppends | algorithms/a_star.py:142-154 | apart from Uniform-Cost, processing neighbours only appends: the old open list is a prefix, and each new entry is a scored neighbour at a position not closed |
| SearchSpec.RelaxationOnlyLowers | algorithms/uniform_cost.py:158-172 | Uniform-Cost relaxation keeps every open entry at its position and never raises its g |
| SearchSpec.RunToEnd | algorithms/uniform_cost.py:174-180 | stepping until nothing is open or the search is finished yields a well-formed state that is exhausted or finished |
| AStar.AStarPathfinder.constructor | algorithms/a_star.py:38-45 | empty lists, no path, not finished, no start or goal |
| AStar.AStarPathfinder.InitializeSearch | algorithms/a_star.py:92-101 | open is exactly the start node with g = h = f = 0; closed is empty, no path, not finished, counter 0; the invariant holds |
| AStar.AStarPathfinder.Step | algorithms/a_star.py:103-130 | returns false and changes nothing exactly when open is empty or the search is finished; otherwise the counter grows by one and the state becomes `StepSpec` of the old; the invariant is kept |
| AStar.AStarPathfinder.CloseFirstMinimum | algorithms/a_star.py:110-120 | the first entry of minimal f leaves open and is appended to closed, and is returned |
| AStar.AStarPathfinder.ProcessNeighbors | algorithms/a_star.py:132-154 | each neighbour in generator order is skipped if closed, skipped if an open entry at its position has g no worse, and otherwise appended with g = parent g + cost, h = dx² + dy², f = g + h |
| AStar.AStarPathfinder.FindPath | algorithms/a_star.py:156-161 | the state is the one after `iterations` steps; it stops only on an empty open list, on finishing, or at the step bound; a returned path is a valid start-to-goal path |
| AStar.AStarPathfinder.Restore | scenes/testing_scene.py:179-183 | open, closed, path and finished become the snapshot's; the counter and the points are kept |
| Dijkstra.DijkstraPathfinder.constructor | algorithms/dijkstra.py:38-45 | empty lists, no path, not finished, no start or goal |
| Dijkstra.DijkstraPathfinder.InitializeSearch | algorithms/dijkstra.py:96-108 | open is exactly the start node with zero scores; closed is empty, no path, not finished, counter 0 |
| Dijkstra.DijkstraPathfinder.Step | algorithms/dijkstra.py:110-141 | no-op returning false exactly on an empty open list or a finished search; otherwise the counter grows by one and the state becomes `StepSpec` (the doubled path assignment included) |
| Dijkstra.DijkstraPathfinder.CloseFirstMinimum | algorithms/dijkstra.py:118-129 | the first entry of minimal f (= g) moves from open to the end of closed |
| Dijkstra.DijkstraPathfinder.ProcessNeighbors | algorithms/dijkstra.py:143-171 | neighbours scored h = 0, f = g = parent g + cost; skipped if closed or if an open entry there has g no worse; otherwise appended |
| Dijkstra.DijkstraPathfinder.FindPath | algorithms/dijkstra.py:183-188 | as for A*: the state after `iterations` steps; it stops on exhaustion, on finishing or at the bound; the returned path is valid |
| Dijkstra.DijkstraPathfinder.Restore | scenes/testing_scene.py:179-183 | the snapshot's four fields are restored; the counter is kept |
| Greedy.GreedyPathfinder.constructor | algorithms/greedy.py:38-45 | empty lists, no path, not finished, no start or goal |
| Greedy.GreedyPathfinder.InitializeSearch | algorithms/greedy.py:96-109 | open is exactly the start node with g = 0 and h = f = squared distance to the goal; closed empty, counter 0 |
| Greedy.GreedyPathfinder.Step | algorithms/greedy.py:111-138 | no-op returning false exactly on an empty open list or a finished search; otherwise the counter grows by one and the state becomes `StepSpec` |
| Greedy.GreedyPathfinder.CloseFirstMinimum | algorithms/greedy.py:118-128 | the first entry of minimal f (= h) moves from open to the end of closed |
| Greedy.GreedyPathfinder.ProcessNeighbors | algorithms/greedy.py:144-169 | neighbours scored f = h = squared distance, g = parent g + cost; skipped if closed or if an open entry there has f no worse; otherwise appended |
| Greedy.GreedyPathfinder.FindPath | algorithms/greedy.py:171-177 | the loop always ends; the final state is the complete run from initialisation; a returned path is valid; none is returned only when open is exhausted |
| Greedy.GreedyPathfinder.Restore | scenes/testing_scene.py:179-183 | the snapshot's four fields are restored; the counter is kept |
| UniformCost.UniformCostPathfinder.constructor | algorithms/uniform_cost.py:38-45 | empty lists, no path, not finished, no start or goal |
| UniformCost.UniformCostPathfinder.InitializeSearch | algorithms/uniform_cost.py:96-108 | open is exactly the start node with g = f = 0; closed empty, no path, not finished (no counter) |
| UniformCost.UniformCostPathfinder.Step | algorithms/uniform_cost.py:110-135 | no-op returning false exactly on an empty open list or a finished search; otherwise the state becomes `StepSpec` |
| UniformCost.UniformCostPathfinder.CloseFirstMinimum | algorithms/uniform_cost.py:116-125 | the first entry of minimal g moves from open to the end of closed |
| UniformCost.UniformCostPathfinder.ProcessNeighbors | algorithms/uniform_cost.py:137-172 | a closed neighbour is skipped; the first open entry at its position takes the new g, f and parent when strictly cheaper; otherwise the neighbour is appended with g = f |
| UniformCost.UniformCostPathfinder.FindPath | algorithms/uniform_cost.py:174-180 | the loop always ends; the final state is the complete run; a returned path is valid; none is returned only when open is exhausted |
| UniformCost.UniformCostPathfinder.Restore | scenes/testing_scene.py:179-183 | the snapshot's four fields are restored |
| UniformCost.FindExisting | algorithms/uniform_cost.py:158-162 | the linear search returns the index of the first open entry at the position, or none |
| UniformCost.FirstAtUnique | algorithms/uniform_cost.py:158-162 | an entry at the position with none before it is the one the lookup finds |
| Grids.ApplyObstacles | components/grid.py:86-89 | each listed in-bounds cell becomes an obstacle, and every other cell keeps its state |
| Grids.ColumnObstaclesMembers | components/grid.py:150-152 | one column's scan lists exactly its obstacle cells |
| Grids.ObstaclesBeforeMembers | components/grid.py:148-152 | the export lists exactly the obstacle cells |
| Grids.ColumnObstaclesOrdered | components/grid.py:150-152 | one column's list is in row order |
| Grids.ObstacleListOrdered | components/grid.py:149-152 | the export list is strictly ordered by column, then row, so it has no repeats |
| Grids.ToggleTwiceRestores | components/grid.py:100-110 | toggling twice restores the grid; no other cell changes; free and obstacle are swapped |
| Grids.ToggleKeepsCanonical | components/grid.py:103-105 | toggling never touches the START and END cells, so they stay exactly the two points |
| Grids.MoveKeepsCanonical | components/grid.py:112-127 | a blocked move changes nothing; otherwise the point moves to the target and START/END stay exactly the two points |
| Grids.ClearIsCanonical | components/grid.py:129-144 | on two columns, or on four or more, clearing gives START at (1, rows/2), END at (cols-2, rows/2), and every other cell free |
| Grids.ClearThreeColumns | components/grid.py:134-144 | on three columns both default points land on (1, rows/2), and END overwrites START there |
| Grids.LoadSpecCells | components/grid.py:66-89 | after loading, listed in-bounds obstacles win over the end point, which wins over the start point, and all other cells are free; a point is set exactly when it is in bounds |
| Grids.LoadAfterExport | components/grid.py:146-157 | loading the exported record restores the grid and both points |
| Grids.Grid.constructor | components/grid.py:7-20 | zero dimensions fall back to 1280/40 by 720/40; the grid starts cleared |
| Grids.Grid.LoadMap | components/grid.py:63-89 | the new state is `LoadSpec`: cleared when there is no data, otherwise points placed when in bounds, then obstacles applied |
| Grids.Grid.MarkObstacles | components/grid.py:86-89 | the loop marks the in-bounds listed cells, as `ApplyObstacles` |
| Grids.Grid.CellFromPosition | components/grid.py:92-98 | a cell is returned exactly when the pixel lies inside the grid; it is the cell whose square contains the pixel |
| Grids.Grid.ToggleObstacle | components/grid.py:100-110 | the table becomes `ToggleAt` of the old one; the points are unchanged |
| Grids.Grid.MovePoint | components/grid.py:112-127 | the new state is `MoveSpec` of the old: blocked, moved start or moved end |
| Grids.Grid.Clear | components/grid.py:129-144 | the new state is `ClearSpec`: all free, default START and END placed when their columns exist |
| Grids.Grid.GetMapData | components/grid.py:146-157 | the nested loops produce the two points and the column-major obstacle list (`ExportSpec`) |
| Agents.MoveTarget | components/agent.py:68-73 | a target exists exactly when the shifted cell is in bounds and not an obstacle, and it is the position shifted by (dx, dy) |
| Agents.Agent.constructor | components/agent.py:5-11 | the path is [start], steps 0, not finished; `len(path) == steps + 1` holds |
| Agents.Agent.Move | components/agent.py:64-76 | a finished agent, or an illegal target, changes nothing; otherwise the position moves, steps grows by one and the position is appended; `len(path) == steps + 1` is kept |
| Testing.Algorithm.InitializeSearch | scenes/testing_scene.py:114 | the selected pathfinder holds the initial snapshot for the given points, and its iteration counter is 0 (none for Uniform-Cost) |
| Testing.Algorithm.Step | scenes/testing_scene.py:158 | the selected pathfinder's state becomes `StepSpec` of its old state; its counter grows by one exactly when open was non-empty and the search unfinished |
| Testing.Algorithm.Restore | scenes/testing_scene.py:179-183 | the selected pathfinder's state becomes the snapshot; its points and its iteration counter (none for Uniform-Cost) are kept |
| Testing.TraceWellFormed | scenes/testing_scene.py:154-162 | every recorded snapshot satisfies the search invariant |
| Testing.TraceExtends | scenes/testing_scene.py:154-161 | cutting the history after the cursor and appending one step's snapshot gives a history of the same kind |
| Testing.TestingScene.constructor | scenes/testing_scene.py:36-56 | the pathfinder searches the scene's own grid; the history is empty and the cursor is -1 |
| Testing.TestingScene.ResetSearch | scenes/testing_scene.py:99-117 | the pathfinder starts from the grid's start and end points on the grid's own cells, with its counter at 0; the history is exactly the initial snapshot, and the cursor is 0 |
| Testing.TestingScene.StepForward | scenes/testing_scene.py:137-162 | finished: nothing changes, the counter included; otherwise the history is cut after the cursor, one step's snapshot is appended, the cursor is the last index, and the counter grows by one when open was non-empty |
| Testing.TestingScene.Advance | scenes/testing_scene.py:152-162 | the unfinished case: history = old prefix up to the cursor plus the next step's snapshot; cursor = its last index; the counter grows by one when open was non-empty |
| Testing.TestingScene.StepBack | scenes/testing_scene.py:164-183 | the cursor decreases only when positive; the history is unchanged; the pathfinder shows the snapshot at the cursor; its iteration counter keeps its value |

## Left out

- √2 is the exact real 1.4142135623730951; IEEE floating-point rounding of costs and of their sums is not modelled.
- A pathfinder reads the grid as a value (`occ`) fixed at construction; in the source it reads the live grid object, which the scene never edits during a search.
- Drawing, fonts, colours, button handling, timers, auto-play, algorithm switching, the diagonal toggle and the tree-visualiser thread are presentation or scheduling and are not modelled.
- The agent's colour and human flag are presentation only and are not modelled.
- `cargar_mapa` takes the already decoded record as `Option<MapData>`; file access and JSON decoding are left out. So is a record without "start" or "end", which the source rejects with an exception. An empty decoded record is modelled as no data.
- `get_current_state_snapshot` is the `Snap()` function; a deep copy is a value copy here, so it has no separate contract.
- Testing.TestingScene.StepForward: requires a prior reset (`Ready`), as the scene always resets on entry; a step before any reset is not modelled.
- Testing.TestingScene.StepBack: requires a prior reset (`Ready`) as well; before any reset the source's step back is a no-op (the cursor is -1), which is not modelled.
- AStar.AStarPathfinder.constructor: the counter starts at 0, whereas the source creates it only on initialisation; the same holds for the Dijkstra and Greedy constructors.
- Grids.Grid.constructor: takes natural dimensions; a negative dimension, which the source would accept, is not modelled.
- Grids.Grid.CellFromPosition: the cell size is a parameter instead of the mutable global `CELL_SIZE`.
- Grids.Grid.MovePoint: requires an in-bounds target, and a set point of the kind moved; out of bounds, Python's negative indexing would wrap, and a missing point raises an exception. The editor passes only cells inside the grid.
- Grids.Grid.ToggleObstacle: requires an in-bounds cell, for the same reason.
- Grids.Grid.GetMapData: requires both points to be set. Loading a record whose start or end lies outside the grid leaves that point unset, and the source's export then fails with a TypeError on `list(None)`; that failure is not modelled.
- Testing.TestingScene.ResetSearch: requires both grid points to be set; the source's behaviour with an unset point is not modelled. It differs by variant:
  - Greedy fails already in initialisation, computing the heuristic of a missing point (algorithms/greedy.py:102, 142).
  - With only the start unset, A*, Dijkstra and Uniform-Cost fail at the first step, unpacking the missing position in the neighbour generator (algorithms/pathfinder_base.py:18).
  - With only the end unset, A* fails at its first expansion that meets a neighbour, computing the heuristic (algorithms/a_star.py:147-148). Dijkstra and Uniform-Cost never match the goal (algorithms/dijkstra.py:132, algorithms/uniform_cost.py:128) and run until the open list is empty, unfinished.
  - With both unset, A*, Dijkstra and Uniform-Cost find the start's missing position equal to the goal's, since nodes compare by position (algorithms/a_star.py:15-16); the first step closes the start as the goal and finishes.
- AStar.AStarPathfinder.FindPath: takes a step bound, because an A* run can close a position more than once and its termination is not proved here; below the bound the loop is the source's.
- Dijkstra.DijkstraPathfinder.FindPath: takes a step bound, for the same reason as A*.
- `Chain` also stops at a parent index that does not point backwards; in a well-formed state this never happens, so the model of path reconstruction agrees with the source there.

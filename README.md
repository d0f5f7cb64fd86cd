# Pathfinding visualizer: the search engine in Dafny

The visualizer shows a grid of 30 columns by 28 rows. The user places a start cell and a finish cell,
draws obstacles, gives cells a weight from 1 to 9, and then runs one of four searches from start to
finish: breadth-first (`bfs`), depth-first (`dfs`), Dijkstra's algorithm (`dijkstra`) or A* with the
Manhattan distance as heuristic (`a_star`). Each search returns its `came_from` map. `draw_path` then
walks that map back from the finish.

This project models that engine in Dafny and proves what the searches deliver:

- **Grid** — `is_valid_cell`, `get_neighbors` (right, left, down, up, in bounds only),
  `manhattan_distance` and the cell weight `weights.get(c, 1)`. The grid size is a parameter.
- **Paths and trees** — walks around obstacles, their weighted cost, and the predecessor tree a
  `came_from` map forms.
- **BFS and DFS** — each is a method with the source's loop: a deque popped at the front for BFS, a
  list popped at the back for DFS. Each loop body calls the shared neighbour loop. Both return an
  acyclic search tree that holds the finish exactly when the finish is reachable. BFS's tree path to
  the finish has the fewest steps of any walk.
- **Dijkstra and A\*** — each is a method with the source's loop over a priority queue. The queue is
  a multiset of entries; a pop removes some entry of least key. The loops keep:
  - Dijkstra's stale-entry skip and its break on popping the finish;
  - A*'s start entry `(0, 0, start)`, its loop test on the top entry and its stale test.
  Both return an acyclic search tree holding the finish exactly when the finish is reachable. The
  tree path to the finish then costs no more than any walk.
- **draw_path** — its loop is a method. From a rooted acyclic tree, it collects the interior cells of
  the tree path to the finish, from the finish back, so the drawn path repeats no cell. When the
  finish is not in the map it collects nothing. The search button applies it to the search's result,
  as each search does in the source.
- **Comparing searches** — on the same grid, Dijkstra's and A*'s paths cost the same. When every stored
  weight is 1 (or none is stored), BFS's path has as many cells as theirs. The trees themselves may differ.
- **The grid editor** — the mouse handler of `update_loop`, as a class whose fields are the start,
  the finish, the obstacle set and the weight map:
  - setting the start or the finish;
  - adding an obstacle, by click or by drag;
  - cycling a weight;
  - the right click;
  - reset;
  - the four search buttons, which need both the start and the finish placed.
  Every edit keeps the editor's invariant: the start and the finish are never obstacles, obstacles
  carry no weight, and every weight lies in 1..9.

Modules, one per file: `Wrappers`, `Grid`, `Paths`, `PredecessorTree`, `Frontier`, `Measure`,
`MinHeap`, `UnweightedSearch`, `BreadthFirst`, `DepthFirst`, `WeightedSearch`, `DijkstraSearch`,
`AStarSearch`, `PathWalk`, `Editor`.

How the proofs are organised:

- Each neighbour loop (`GetNeighbors`, `DiscoverNeighbors`, `RelaxNeighbors`) keeps an exact-state
  invariant. Its state equals a step function of the inputs: `FirstNeighbors` for `get_neighbors`,
  `DiscoverAlong` and `Discover` for the unweighted searches, `RelaxAlong` and `Expand` for the
  weighted ones.
- The four search loops keep their own invariants: `BfsInvariant`, `DfsInvariant`, and `Consistent`
  with `CoveredExcept` for Dijkstra and A*. Lemmas about the step functions carry these from one round
  to the next.
- DFS has no path guarantee, and the model claims none: the source promises none either.

## Model

| member | source | states |
|---|---|---|
| Grid.IsValidCell | main.py:133-136 | `is_valid_cell`: the cell's column lies in 0..cols-1 and its row in 0..rows-1 |
| Grid.Manhattan | main.py:275-276 | `manhattan_distance`: the sum of the absolute column and row differences |
| Grid.Weight | main.py:246 | `weights.get(c, 1)`: the stored weight, or 1 when none is stored |
| Grid.GetNeighbors | main.py:139-146 | returns exactly `Neighbors`: the in-bounds cells among right, left, down, up, in that order |
| Grid.FirstNeighborsStep | main.py:142-145 | one more direction appends that direction's cell when it is in bounds |
| Grid.NeighborsNear | main.py:139-146 | every neighbour is in bounds, one step away, and not the cell itself |
| Grid.NeighborIsNear | main.py:143-144 | the same, for one given neighbour |
| Grid.NeighborsComplete | main.py:139-146 | every in-bounds cell one step away is among the neighbours |
| Grid.NeighborsDistinct | main.py:139-146 | at most four neighbours, none repeated |
| Grid.NeighborsAreDistinct | main.py:139-146 | the neighbour list repeats no cell (back-recursive form) |
| Grid.ManhattanSymmetric | main.py:275-276 | the distance is symmetric |
| Grid.ManhattanZeroIffEqual | main.py:275-276 | the distance is 0 exactly between equal cells |
| Grid.ManhattanTriangle | main.py:275-276 | the distance satisfies the triangle inequality |
| Grid.WeightBounds | main.py:246 | with stored weights in 1..9, `weights.get(c, 1)` lies in 1..9 |
| Paths.PathCostSplit | main.py:247 | cutting a walk at a cell splits its accumulated cost |
| Paths.PathCostPrefix | main.py:247 | with weights of at least 1, a prefix of a walk costs no more than the walk |
| Paths.UnitPathCost | main.py:163-165 | when every stored weight is 1 (or none is stored), a walk costs its number of steps |
| Paths.ManhattanAdmissible | main.py:306 | the Manhattan distance between a walk's ends never exceeds the walk's cost (weights at least 1) |
| PredecessorTree.SearchTreeRooted | main.py:154 | a search tree is rooted at the start, the only key with no predecessor |
| PredecessorTree.TreePathExists | main.py:115-119 | in an acyclic search tree, every key has a tree path from the start |
| PredecessorTree.TreePathIsPath | main.py:115-119 | a tree path is an obstacle-free, in-bounds walk |
| PredecessorTree.KeysReachable | main.py:162-165 | every key of an acyclic search tree is reachable from the start |
| PredecessorTree.TreePathLength | main.py:116-119 | a tree path has more than one cell exactly when it ends away from the start |
| PredecessorTree.TreePathUnique | main.py:115-119 | a cell has only one tree path |
| PredecessorTree.RankGrows | main.py:115-119 | along a tree path, each cell ranks below every later one |
| PredecessorTree.TreePathNoRepeat | main.py:115-119 | a tree path of an acyclic map visits no cell twice |
| PredecessorTree.CheapestPathsAgree | main.py:226-329 | two cheapest tree paths to the finish, such as Dijkstra's and A*'s, cost the same |
| PredecessorTree.ShortestMatchesCheapest | main.py:149-272 | when every stored weight is 1 (or none is stored), a shortest tree path (BFS's) and a cheapest one (Dijkstra's or A*'s) have the same number of cells |
| PredecessorTree.TreePathCost | main.py:247-252 | when costs grow by the entered weight along every link, a tree path costs at most the growth of the recorded cost from the start to its end |
| MinHeap.MinimumExists | main.py:236 | a non-empty heap has an entry of least key |
| MinHeap.FindMin | main.py:236 | the entry `heappop` removes has the least key in the heap |
| Frontier.ScanPath | main.py:240-252 | along a walk from the start, when only pending cells are unrelaxed, a pending or final cell is found whose recorded cost is at most the walk's cost to it |
| Frontier.ClosedReach | main.py:200-203 | a set of cells closed under expansion holds every cell a walk from it reaches |
| UnweightedSearch.InFresh | main.py:163 | a cell is kept exactly when it is a neighbour, not an obstacle and not yet in `came_from` |
| UnweightedSearch.FreshNoDuplicates | main.py:162-165 | the kept cells repeat none |
| UnweightedSearch.AlongMeaning | main.py:162-165 | after part of the neighbour loop: the frontier gains the fresh cells in order, and exactly they get the current cell as predecessor |
| UnweightedSearch.DiscoverMeaning | main.py:162-165 | the whole neighbour loop: the frontier gains exactly the fresh in-bounds, adjacent, non-obstacle cells in `get_neighbors` order; they, and only they, get the current cell as predecessor |
| UnweightedSearch.DiscoverAppends | main.py:164-165 | the loop only appends cells that were undiscovered and are now discovered, and forgets no discovered cell |
| UnweightedSearch.DiscoverNeighbor | main.py:163-165 | one pass of the neighbour loop is `DiscoverOne` |
| UnweightedSearch.DiscoverNeighbors | main.py:162-165 | the neighbour loop computes `Discover` |
| UnweightedSearch.InitialShape | main.py:153-154 | the initial frontier and `came_from` form a sound tree with the start at depth 0 |
| UnweightedSearch.PopKeepsFrontier | main.py:158 | popping a frontier element keeps every other element and repeats none |
| UnweightedSearch.DiscoverKeepsShape | main.py:162-165 | expanding keeps a search tree whose new cells sit one level below the expanded cell |
| UnweightedSearch.DiscoverKeepsFrontier | main.py:162-165 | expanding keeps the frontier of discovered, distinct cells and only adds to `came_from` |
| UnweightedSearch.DiscoverLowers | main.py:162-165 | expanding discovers a cell or changes nothing, so the loop terminates |
| UnweightedSearch.ShapeAcyclic | main.py:154-165 | a tree with depths is acyclic, and the finish, if discovered, is reachable |
| BreadthFirst.InitialBfs | main.py:153-154 | the BFS invariant holds before the loop |
| BreadthFirst.StepLevels | main.py:158-165 | after a pop and an expansion, the deque holds one depth followed by the next |
| BreadthFirst.PoppedRelaxed | main.py:162-165 | after its expansion, each neighbour of the popped cell is at most one level deeper |
| BreadthFirst.StepSettled | main.py:157-165 | every discovered cell off the deque stays expanded, at depth at most the current level |
| BreadthFirst.BfsStep | main.py:157-165 | one round of the BFS loop keeps its invariant |
| BreadthFirst.BfsBeats | main.py:157-160 | when the finish is at the front or the deque is empty, any walk to the finish has at least as many steps as the finish's depth |
| BreadthFirst.BfsIsShortest | main.py:157-160 | the same, for every walk |
| BreadthFirst.BfsConclude | main.py:184 | the returned tree is acyclic and holds the finish exactly when it is reachable, by a shortest path |
| BreadthFirst.Bfs | main.py:149-184 | `bfs` returns an acyclic search tree holding the finish exactly when the finish is reachable; its path then has the fewest steps of any walk |
| DepthFirst.InitialDfs | main.py:191-192 | the DFS invariant holds before the loop |
| DepthFirst.DfsStep | main.py:196-206 | popping the top of the stack and expanding it keeps the invariant |
| DepthFirst.DfsConclude | main.py:195-198 | when the finish is found or the stack is empty, the tree is acyclic and holds the finish exactly when it is reachable |
| DepthFirst.Dfs | main.py:187-223 | `dfs` returns an acyclic search tree holding the finish exactly when the finish is reachable |
| WeightedSearch.RelaxKeepsTree | main.py:252 | recording the current cell as predecessor of a valid neighbour keeps a search tree |
| WeightedSearch.RelaxKeepsGrowth | main.py:246-252 | recording a lower cost through the current cell keeps costs growing along every link |
| WeightedSearch.RelaxKeepsBound | main.py:246-250 | recorded costs stay within 9 per discovered cell |
| WeightedSearch.RelaxKeepsHeap | main.py:250-251 | pushing the new entry keeps every entry's cost at or above its cell's recorded cost |
| WeightedSearch.ImproveKeepsConsistent | main.py:249-252 | an improving relaxation keeps the loop-state invariant |
| WeightedSearch.OneKeepsConsistent | main.py:244-252 | one pass of the neighbour loop keeps the loop-state invariant |
| WeightedSearch.OneLowers | main.py:249-251 | one pass changes nothing or lowers the termination potential |
| WeightedSearch.OneKeepsCovered | main.py:249-251 | one pass keeps every other recorded cell pending in the heap or relaxed |
| WeightedSearch.OneMonotone | main.py:249-250 | one pass only adds cells and lowers costs, and leaves the current cell's cost |
| WeightedSearch.OneRelaxes | main.py:244-250 | after its pass, a non-obstacle neighbour costs at most the current cell's cost plus its weight |
| WeightedSearch.AlongMonotone | main.py:243-252 | the same as OneMonotone over part of the loop |
| WeightedSearch.AlongKeepsConsistent | main.py:243-252 | the loop keeps the loop-state invariant |
| WeightedSearch.AlongLowers | main.py:243-252 | the loop changes nothing or lowers the potential |
| WeightedSearch.AlongKeepsCovered | main.py:243-252 | the loop keeps other cells pending or relaxed |
| WeightedSearch.AlongRelaxes | main.py:243-252 | after the loop, every non-obstacle neighbour visited costs at most the route through the current cell |
| WeightedSearch.AlongCosts | main.py:246-250 | over distinct neighbours, exactly the improvable ones get the cost through the current cell; other costs stay |
| WeightedSearch.LastImproves | main.py:249 | earlier passes do not change whether a later distinct neighbour is improvable |
| WeightedSearch.AlongPredecessors | main.py:249-252 | exactly the improvable neighbours get the current cell as predecessor; other predecessors stay |
| WeightedSearch.AlongPushes | main.py:249-251 | the heap gains exactly the entries of the improvable neighbours |
| WeightedSearch.ExpandMeaning | main.py:243-252 | the whole loop, stated without its order: costs, predecessors and pushed entries change exactly at the improvable cells |
| WeightedSearch.CloseCovered | main.py:243-252 | after its expansion, the current cell is relaxed |
| WeightedSearch.ExpandKeeps | main.py:243-252 | expanding keeps the invariant, covers the current cell, and lowers the potential unless nothing changes |
| WeightedSearch.InitialState | main.py:230-232 | the initial heap, `came_from` and cost map satisfy the invariant |
| WeightedSearch.DropEntry | main.py:236-241 | popping leaves every other cell covered, and the popped cell too when its entry is stale |
| WeightedSearch.RelaxNeighbor | main.py:244-252 | the body of the neighbour loop is `RelaxOne` |
| WeightedSearch.RelaxNeighbors | main.py:243-252 | the neighbour loop computes `Expand` |
| WeightedSearch.PendingEntry | main.py:251 | a pending cell has an entry keyed at most its cost plus its heuristic |
| WeightedSearch.HeuristicAdmissible | main.py:306 | along a walk to the finish, the cost so far plus the heuristic never exceeds the walk's cost |
| WeightedSearch.FoundBeats | main.py:237-238 | when the least entry is the finish's, no walk to the finish is cheaper than its recorded cost |
| WeightedSearch.FoundIsCheapest | main.py:237-238 | the same, for every walk |
| WeightedSearch.ExhaustedIsCheapest | main.py:235 | when the heap is empty, every walk reaches the finish at no less than its recorded cost |
| WeightedSearch.Conclude | main.py:272 | the returned tree is acyclic, holds the finish exactly when it is reachable, and its path is then a cheapest walk |
| DijkstraSearch.Dijkstra | main.py:226-272 | `dijkstra` returns an acyclic search tree holding the finish exactly when the finish is reachable; its path then costs no more than any walk |
| AStarSearch.AStar | main.py:279-329 | `a_star` gives the same guarantees as `dijkstra`: an acyclic search tree, the finish in it exactly when reachable, its path then cheapest |
| PathWalk.Get | main.py:119 | `came_from.get(c)`: the recorded predecessor, or `None` for a cell that is not a key |
| PathWalk.KeepInside | main.py:117-118 | on a trail that begins at the finish and whose later cells are neither the start nor the finish, exactly the first cell is dropped |
| PathWalk.ReversedTrail | main.py:115-119 | the trail walked back from the finish, reversed, is a tree path |
| PathWalk.TrailIsTreePath | main.py:115-119 | the walk's trail, reversed, is the tree path from the start to the finish |
| PathWalk.WalkStep | main.py:116-119 | one step of the walk keeps its invariant and lowers its measure |
| PathWalk.TracePath | main.py:112-119 | `draw_path`'s walk ends; with the finish in the tree and not the start, the start, the collected cells reversed, and the finish form the tree path and repeat no cell; otherwise nothing is collected |
| Editor.NextWeight | main.py:433-436 | the weight after one weight-button click: one more below 9, back to 1 from 9 |
| Editor.CycleFormula | main.py:433-436 | up to nine clicks raise a weight by their number, wrapping once from 9 back to 1 |
| Editor.WeightCycles | main.py:432-436 | a weight in 1..9 stays in range after one click, and nine clicks bring it back |
| Editor.GridEditor.constructor | main.py:334-337 | no start, no finish, no obstacles, no weights; the invariant holds |
| Editor.GridEditor.SetStart | main.py:412-417 | the start moves to the cell; the old start's obstacle and the cell's are discarded; nothing else changes |
| Editor.GridEditor.SetFinish | main.py:418-423 | the same for the finish |
| Editor.GridEditor.AddObstacle | main.py:424-429 | unless the cell is the start or the finish, it becomes an obstacle and loses its weight; otherwise nothing changes (also the drag at 447-454) |
| Editor.GridEditor.CycleWeight | main.py:430-437 | unless the cell is the start, the finish or an obstacle, its weight (1 when unset) goes up by one, from 9 back to 1; weights stay in range |
| Editor.GridEditor.RightClick | main.py:439-443 | an obstacle on the cell is removed; otherwise a weight above 1 is deleted; nothing else changes |
| Editor.GridEditor.Reset | main.py:377-385 | no start, no finish, no obstacles, no weights |
| Editor.GridEditor.RunSearch | main.py:386-405 | a result exactly when the start and the finish are placed; it is an acyclic search tree holding the finish exactly when reachable; BFS's path is shortest, Dijkstra's and A*'s cheapest; the cells `draw_path` collects from it form, with the ends, that tree path without repeats |

## Left out

- Rendering is not modelled: `draw_cell`, `draw_grid`, `draw_buttons`, `draw_weights`, the path colours and `pygame.display.update`.
- `searched_cells` and the repaint loop after each search only choose colours, so they are not modelled.
- `clear_path` and button 9 (clear path) only repaint or reset interface state, so they are not modelled.
- Timing is not modelled: `time.time`, `display_algorithm_time`, `last_execution_time`, `last_algorithm` and `pygame.time.delay`. They are clocks and display.
- The event loop is not modelled: `pygame.event.get`, the quit event, and the conversion from pixels to cells. The clicked cell is a parameter of each editor method.
- Interface state is not modelled: `selected_button`, `mouse_held_down` and `search_initiated`. The editor methods stand for "button selected, then a click".
- `bfs` and `dfs` take `weights` only for repainting, so the model's `Bfs` and `Dfs` do not take it.
- MinHeap.FindMin: Python's `heapq` breaks ties between equal keys by the rest of the tuple. The model lets a pop remove any entry of least key, so the proved results hold for every tie-breaking, Python's included.
- AStarSearch.AStar: the `current == end` break after the pop (main.py:291-292) cannot fire. The loop test has just checked that the top entry's cell is not `end`, and the loop pops that top entry. The model leaves the branch out.
- Dijkstra's stale test compares with `cost_to_come.get(current, inf)`. The popped cell is always recorded, so `DijkstraSearch.Dijkstra` compares with its recorded cost directly.
- Python integers are unbounded, as Dafny's are, so no wrap-around arises.
- Termination is proved from the finiteness of the grid. A cell outside the bounds is never discovered, except the start, which the source does not bounds-check either.
- DepthFirst.Dfs: no path-length or cost promise, because depth-first search offers none.
- `draw_path` is called inside each search in the source (main.py:179, 217, 266, 323). The model calls `TracePath` once, in `Editor.GridEditor.RunSearch`, on the returned map.

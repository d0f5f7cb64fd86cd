/** `a_star`: a heap of `(g + manhattan_distance(cell, end), g, cell)` triples, stopping once `end` is at the top. */
module AStarSearch {
  import opened Wrappers
  import opened Grid
  import opened Paths
  import opened PredecessorTree
  import opened MinHeap
  import opened WeightedSearch

  /**
   * `a_star(start, end, obstacles, weights)` on a `cols` by `rows` grid. The Manhattan estimate
   * never overestimates, so the returned `came_from` is as good as Dijkstra's: an acyclic search
   * tree holding `end` exactly when `end` is reachable, and then along a cheapest walk.
   */
  method AStar(cols: int, rows: int, start: Cell, end: Cell, obstacles: set<Cell>, weights: map<Cell, int>)
    returns (cameFrom: CameFrom)
    requires WeightsInRange(weights)
    ensures IsSearchTree(cols, rows, obstacles, start, cameFrom)
    ensures Acyclic(cameFrom)
    ensures end in cameFrom <==> Reachable(cols, rows, obstacles, start, end)
    ensures end in cameFrom ==> CheapestTreePath(cols, rows, obstacles, weights, cameFrom, start, end)
  {
    var p := Problem(cols, rows, obstacles, weights, start, end, true);
    var pq: multiset<Entry> := multiset{Entry(0, 0, start)};
    cameFrom := map[start := None];
    var gScore: map<Cell, int> := map[start := 0];
    InitialState(p);
    // `while pq and pq[0][2] != end`, with `pq[0]` the entry `heappop` then removes.
    while true
      invariant Consistent(p, State(pq, cameFrom, gScore))
      invariant CoveredExcept(p, pq, gScore, {})
      decreases SearchPotential(p, gScore), |pq|
    {
      if |pq| == 0 {
        ExhaustedIsCheapest(p, State(pq, cameFrom, gScore));
        Conclude(p, State(pq, cameFrom, gScore));
        break;
      }
      var top := FindMin(pq);
      if top.cell == end {
        FoundIsCheapest(p, State(pq, cameFrom, gScore), top);
        Conclude(p, State(pq, cameFrom, gScore));
        break;
      }
      ghost var before := State(pq, cameFrom, gScore);
      pq := pq - multiset{top};
      var currentG, current := top.g, top.cell;
      assert pq + multiset{top} == before.heap;
      DropEntry(p, State(pq, cameFrom, gScore), top);
      if current in gScore && currentG > gScore[current] {
        continue;
      }
      var s := State(pq, cameFrom, gScore);
      ExpandKeeps(p, current, s);
      var s' := RelaxNeighbors(p, current, s);
      pq, cameFrom, gScore := s'.heap, s'.cameFrom, s'.g;
    }
  }
}

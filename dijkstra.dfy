/** `dijkstra`: a heap of `(cost, cell)` pairs ordered by accumulated weight, with stale entries skipped. */
module DijkstraSearch {
  import opened Wrappers
  import opened Grid
  import opened Paths
  import opened PredecessorTree
  import opened MinHeap
  import opened WeightedSearch

  /**
   * `dijkstra(start, end, obstacles, weights)` on a `cols` by `rows` grid. The returned `came_from`
   * is an acyclic search tree; it holds `end` exactly when some walk reaches `end`, and its path to
   * `end` then costs no more than any walk does.
   */
  method Dijkstra(cols: int, rows: int, start: Cell, end: Cell, obstacles: set<Cell>, weights: map<Cell, int>)
    returns (cameFrom: CameFrom)
    requires WeightsInRange(weights)
    ensures IsSearchTree(cols, rows, obstacles, start, cameFrom)
    ensures Acyclic(cameFrom)
    ensures end in cameFrom <==> Reachable(cols, rows, obstacles, start, end)
    ensures end in cameFrom ==> CheapestTreePath(cols, rows, obstacles, weights, cameFrom, start, end)
  {
    var p := Problem(cols, rows, obstacles, weights, start, end, false);
    var pq: multiset<Entry> := multiset{Entry(0, 0, start)};
    cameFrom := map[start := None];
    var costToCome: map<Cell, int> := map[start := 0];
    InitialState(p);
    ghost var found := false;
    while |pq| > 0
      invariant Consistent(p, State(pq, cameFrom, costToCome))
      invariant CoveredExcept(p, pq, costToCome, {})
      decreases SearchPotential(p, costToCome), |pq|
    {
      var entry := FindMin(pq);
      ghost var before := State(pq, cameFrom, costToCome);
      pq := pq - multiset{entry};
      var cost, current := entry.key, entry.cell;
      if current == end {
        FoundIsCheapest(p, before, entry);
        Conclude(p, before);
        found := true;
        break;
      }
      assert pq + multiset{entry} == before.heap;
      DropEntry(p, State(pq, cameFrom, costToCome), entry);
      assert entry.g == cost;
      // `cost_to_come.get(current, inf)`: `current` is always recorded.
      if current in costToCome && cost > costToCome[current] {
        continue;
      }
      var s := State(pq, cameFrom, costToCome);
      ExpandKeeps(p, current, s);
      var s' := RelaxNeighbors(p, current, s);
      pq, cameFrom, costToCome := s'.heap, s'.cameFrom, s'.g;
    }
    if !found {
      ExhaustedIsCheapest(p, State(pq, cameFrom, costToCome));
      Conclude(p, State(pq, cameFrom, costToCome));
    }
  }
}

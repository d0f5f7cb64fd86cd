/**
 * The grid-edit rules of the mouse handler in `update_loop`, and its search buttons: the start and
 * finish cells, the obstacle set and the cell weights, as the handler changes them in place.
 */
module Editor {
  import opened Wrappers
  import opened Grid
  import opened Paths
  import opened PredecessorTree
  import opened BreadthFirst
  import opened DepthFirst
  import opened DijkstraSearch
  import opened AStarSearch
  import opened PathWalk

  /** The four search buttons. */
  datatype Algorithm = BFS | DFS | Dijkstra | AStar

  /** The weight one more weight-button click gives a cell of weight `w`: one more, wrapping from 9 to 1. */
  function NextWeight(w: int): int
  {
    if w < MAX_WEIGHT then w + 1 else 1
  }

  /** `NextWeight` applied `k` times. */
  function CycleTimes(w: int, k: nat): int
    decreases k
  {
    if k == 0 then w else NextWeight(CycleTimes(w, k - 1))
  }

  /** After `k` clicks, at most nine, a weight has moved up by `k`, wrapping once past 9. */
  lemma {:induction false} CycleFormula(w: int, k: nat)
    requires 1 <= w <= MAX_WEIGHT && k <= MAX_WEIGHT
    ensures CycleTimes(w, k) == if w + k <= MAX_WEIGHT then w + k else w + k - MAX_WEIGHT
    decreases k
  {
    if k > 0 {
      CycleFormula(w, k - 1);
    }
  }

  /** A stored weight stays in range, and nine clicks bring it back. */
  lemma WeightCycles(w: int)
    requires 1 <= w <= MAX_WEIGHT
    ensures 1 <= NextWeight(w) <= MAX_WEIGHT
    ensures CycleTimes(w, 9) == w
  {
    CycleFormula(w, 9);
  }

  class GridEditor {
    /** The grid size: 30 columns by 28 rows in the application, any size here. */
    const cols: int
    const rows: int
    /** `start_point` and `finish_point`, `None` until placed. */
    var start: Option<Cell>
    var finish: Option<Cell>
    var obstacles: set<Cell>
    /** `cell_weights`. */
    var weights: map<Cell, int>

    /**
     * What the edits keep: neither `start` nor `finish` is an obstacle, an obstacle carries no
     * weight, and every stored weight lies in 1..9.
     */
    predicate Valid()
      reads this
    {
      && (start.Some? ==> start.value !in obstacles)
      && (finish.Some? ==> finish.value !in obstacles)
      && (forall c :: c in obstacles ==> c !in weights)
      && WeightsInRange(weights)
    }

    /** The editor before any click: nothing placed. */
    constructor (cols: int, rows: int)
      ensures Valid()
      ensures this.cols == cols && this.rows == rows
      ensures start == None && finish == None && obstacles == {} && weights == map[]
    {
      this.cols, this.rows := cols, rows;
      start, finish := None, None;
      obstacles, weights := {}, map[];
    }

    /** Start button, then a click on `cell`: the old start's obstacle and `cell`'s are discarded. */
    method SetStart(cell: Cell)
      requires Valid()
      modifies this
      ensures Valid()
      ensures start == Some(cell) && finish == old(finish) && weights == old(weights)
      ensures obstacles == old(obstacles) - {cell} - (if old(start).Some? then {old(start).value} else {})
    {
      if start.Some? {
        obstacles := obstacles - {start.value};
      }
      start := Some(cell);
      obstacles := obstacles - {cell};
    }

    /** Finish button, then a click on `cell`: the old finish's obstacle and `cell`'s are discarded. */
    method SetFinish(cell: Cell)
      requires Valid()
      modifies this
      ensures Valid()
      ensures finish == Some(cell) && start == old(start) && weights == old(weights)
      ensures obstacles == old(obstacles) - {cell} - (if old(finish).Some? then {old(finish).value} else {})
    {
      if finish.Some? {
        obstacles := obstacles - {finish.value};
      }
      finish := Some(cell);
      obstacles := obstacles - {cell};
    }

    /**
     * Obstacle button, then a click on (or a drag over) `cell`: unless `cell` is the start or the
     * finish, it becomes an obstacle and loses its weight.
     */
    method AddObstacle(cell: Cell)
      requires Valid()
      modifies this
      ensures Valid()
      ensures start == old(start) && finish == old(finish)
      ensures if Some(cell) != start && Some(cell) != finish
              then obstacles == old(obstacles) + {cell} && weights == old(weights) - {cell}
              else obstacles == old(obstacles) && weights == old(weights)
    {
      if Some(cell) != start && Some(cell) != finish {
        obstacles := obstacles + {cell};
        weights := weights - {cell};
      }
    }

    /**
     * Weight button, then a click on `cell`: unless `cell` is the start, the finish or an obstacle,
     * its weight (1 when unset) goes up by one, from 9 back to 1.
     */
    method CycleWeight(cell: Cell)
      requires Valid()
      modifies this
      ensures Valid()
      ensures start == old(start) && finish == old(finish) && obstacles == old(obstacles)
      ensures if Some(cell) != start && Some(cell) != finish && cell !in obstacles
              then weights == old(weights)[cell := NextWeight(Weight(old(weights), cell))]
              else weights == old(weights)
    {
      if Some(cell) != start && Some(cell) != finish && cell !in obstacles {
        var currentWeight := Weight(weights, cell);
        WeightBounds(weights, cell);
        if currentWeight < MAX_WEIGHT {
          weights := weights[cell := currentWeight + 1];
        } else {
          weights := weights[cell := 1];
        }
      }
    }

    /** A right click on `cell`: an obstacle there is removed; otherwise a weight above 1 is removed. */
    method RightClick(cell: Cell)
      requires Valid()
      modifies this
      ensures Valid()
      ensures start == old(start) && finish == old(finish)
      ensures cell in old(obstacles) ==> obstacles == old(obstacles) - {cell} && weights == old(weights)
      ensures cell !in old(obstacles) ==> obstacles == old(obstacles)
      ensures cell !in old(obstacles) && Weight(old(weights), cell) > 1 ==> weights == old(weights) - {cell}
      ensures cell !in old(obstacles) && Weight(old(weights), cell) <= 1 ==> weights == old(weights)
    {
      if cell in obstacles {
        obstacles := obstacles - {cell};
      } else if Weight(weights, cell) > 1 {
        weights := weights - {cell};
      }
    }

    /** The reset button: nothing placed, no obstacles, no weights. */
    method Reset()
      modifies this
      ensures Valid()
      ensures start == None && finish == None && obstacles == {} && weights == map[]
    {
      start, finish := None, None;
      obstacles := {};
      weights := map[];
    }

    /**
     * A search button: with both the start and the finish placed, run the chosen search on the
     * current grid, give back its `came_from`, and collect the cells `draw_path` paints; otherwise
     * do nothing. Every search returns an acyclic search tree holding the finish exactly when it is
     * reachable; BFS's path has the fewest steps and Dijkstra's and A*'s the least weight. The
     * painted cells, with the start and the finish around them, are that tree's path and repeat no cell.
     */
    method RunSearch(algorithm: Algorithm) returns (result: Option<CameFrom>, pathCells: seq<Cell>)
      requires Valid()
      ensures result.Some? <==> start.Some? && finish.Some?
      ensures result.Some? ==>
                && IsSearchTree(cols, rows, obstacles, start.value, result.value)
                && Acyclic(result.value)
                && (finish.value in result.value <==> Reachable(cols, rows, obstacles, start.value, finish.value))
      ensures result.Some? && algorithm == BFS && finish.value in result.value ==>
                ShortestTreePath(cols, rows, obstacles, result.value, start.value, finish.value)
      ensures result.Some? && (algorithm == Dijkstra || algorithm == AStar) && finish.value in result.value ==>
                CheapestTreePath(cols, rows, obstacles, weights, result.value, start.value, finish.value)
      ensures result.None? || finish.value !in result.value || finish.value == start.value ==> pathCells == []
      ensures result.Some? && finish.value in result.value && finish.value != start.value ==>
                && IsTreePath(result.value, start.value, finish.value, [start.value] + Reverse(pathCells) + [finish.value])
                && NoDuplicates([start.value] + Reverse(pathCells) + [finish.value])
    {
      if start.None? || finish.None? {
        return None, [];
      }
      var cameFrom;
      match algorithm {
        case BFS => cameFrom := Bfs(cols, rows, start.value, finish.value, obstacles);
        case DFS => cameFrom := Dfs(cols, rows, start.value, finish.value, obstacles);
        case Dijkstra => cameFrom := DijkstraSearch.Dijkstra(cols, rows, start.value, finish.value, obstacles, weights);
        case AStar => cameFrom := AStarSearch.AStar(cols, rows, start.value, finish.value, obstacles, weights);
      }
      SearchTreeRooted(cols, rows, obstacles, start.value, cameFrom);
      pathCells := TracePath(cameFrom, start.value, finish.value);
      result := Some(cameFrom);
    }
  }
}

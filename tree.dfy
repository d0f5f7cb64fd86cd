/**
 * The `came_from` map every search returns: each discovered cell mapped to the cell it was reached
 * from, the start cell mapped to `None`.
 */
module PredecessorTree {
  import opened Wrappers
  import opened Grid
  import opened Paths

  type CameFrom = map<Cell, Option<Cell>>

  /**
   * What every search promises of its `came_from`: `start` maps to `None`, and every other key is an
   * in-bounds, non-obstacle cell whose predecessor is a key one step away.
   */
  predicate IsSearchTree(cols: int, rows: int, obstacles: set<Cell>, start: Cell, cameFrom: CameFrom)
  {
    && start in cameFrom
    && cameFrom[start] == None
    && forall n :: n in cameFrom && n != start ==>
         && cameFrom[n].Some?
         && cameFrom[n].value in cameFrom
         && IsValidCell(cols, rows, n)
         && n !in obstacles
         && Adjacent(cameFrom[n].value, n)
  }

  /** `start` is the only key without a predecessor, and every predecessor is a key. */
  predicate Rooted(cameFrom: CameFrom, start: Cell)
  {
    && start in cameFrom
    && cameFrom[start] == None
    && forall n :: n in cameFrom && n != start ==> cameFrom[n].Some? && cameFrom[n].value in cameFrom
  }

  lemma SearchTreeRooted(cols: int, rows: int, obstacles: set<Cell>, start: Cell, cameFrom: CameFrom)
    requires IsSearchTree(cols, rows, obstacles, start, cameFrom)
    ensures Rooted(cameFrom, start)
  {
  }

  /** `rank` strictly decreases along every predecessor link between keys. */
  ghost predicate Ranked(cameFrom: CameFrom, rank: map<Cell, nat>)
  {
    && cameFrom.Keys <= rank.Keys
    && forall n :: n in cameFrom && cameFrom[n].Some? && cameFrom[n].value in cameFrom ==>
         rank[cameFrom[n].value] < rank[n]
  }

  /** Following predecessors never comes back to a cell already passed. */
  ghost predicate Acyclic(cameFrom: CameFrom)
  {
    exists rank :: Ranked(cameFrom, rank)
  }

  /** `p` runs from `start` to `end` and each of its cells after the first has the one before as predecessor. */
  predicate IsTreePath(cameFrom: CameFrom, start: Cell, end: Cell, p: seq<Cell>)
  {
    && |p| >= 1
    && p[0] == start
    && p[|p| - 1] == end
    && start in cameFrom
    && forall i :: 0 < i < |p| ==> p[i] in cameFrom && cameFrom[p[i]] == Some(p[i - 1])
  }

  /** The tree path to `end` costs no more than any walk from `start` to `end`. */
  ghost predicate CheapestTreePath(cols: int, rows: int, obstacles: set<Cell>, weights: map<Cell, int>,
                                   cameFrom: CameFrom, start: Cell, end: Cell)
  {
    forall p, q :: IsTreePath(cameFrom, start, end, p) && IsPathFromTo(cols, rows, obstacles, q, start, end) ==>
      PathCost(weights, p) <= PathCost(weights, q)
  }

  /** The tree path to `end` has no more cells than any walk from `start` to `end`. */
  ghost predicate ShortestTreePath(cols: int, rows: int, obstacles: set<Cell>, cameFrom: CameFrom, start: Cell, end: Cell)
  {
    forall p, q :: IsTreePath(cameFrom, start, end, p) && IsPathFromTo(cols, rows, obstacles, q, start, end) ==>
      |p| <= |q|
  }

  /** Accumulated costs grow by at least the entered cell's weight along every predecessor link. */
  predicate CostsGrow(cameFrom: CameFrom, start: Cell, weights: map<Cell, int>, g: map<Cell, int>)
  {
    forall n :: n in cameFrom && n != start ==>
      cameFrom[n].Some? && n in g && cameFrom[n].value in g && g[n] >= g[cameFrom[n].value] + Weight(weights, n)
  }

  /** In an acyclic search tree, every key has a tree path from `start`. */
  lemma {:induction false} TreePathExists(cols: int, rows: int, obstacles: set<Cell>, start: Cell,
                                          cameFrom: CameFrom, rank: map<Cell, nat>, v: Cell)
    returns (p: seq<Cell>)
    requires IsSearchTree(cols, rows, obstacles, start, cameFrom)
    requires Ranked(cameFrom, rank)
    requires v in cameFrom
    ensures IsTreePath(cameFrom, start, v, p)
    decreases rank[v]
  {
    if v == start {
      p := [start];
    } else {
      var u := cameFrom[v].value;
      var q := TreePathExists(cols, rows, obstacles, start, cameFrom, rank, u);
      p := q + [v];
      assert p[..|q|] == q;
    }
  }

  /** A tree path is a walk the searches may take. */
  lemma TreePathIsPath(cols: int, rows: int, obstacles: set<Cell>, start: Cell, end: Cell,
                       cameFrom: CameFrom, p: seq<Cell>)
    requires IsSearchTree(cols, rows, obstacles, start, cameFrom)
    requires IsTreePath(cameFrom, start, end, p)
    ensures IsPathFromTo(cols, rows, obstacles, p, start, end)
  {
    forall i | 0 < i < |p|
      ensures IsValidCell(cols, rows, p[i]) && p[i] !in obstacles && Adjacent(p[i - 1], p[i])
    {
      assert cameFrom[p[i]] == Some(p[i - 1]);
    }
  }

  /** In an acyclic search tree, a key is reachable from `start`. */
  lemma KeysReachable(cols: int, rows: int, obstacles: set<Cell>, start: Cell, cameFrom: CameFrom, v: Cell)
    requires IsSearchTree(cols, rows, obstacles, start, cameFrom)
    requires Acyclic(cameFrom)
    requires v in cameFrom
    ensures Reachable(cols, rows, obstacles, start, v)
  {
    var rank :| Ranked(cameFrom, rank);
    var p := TreePathExists(cols, rows, obstacles, start, cameFrom, rank, v);
    TreePathIsPath(cols, rows, obstacles, start, v, cameFrom, p);
  }

  /** A tree path has more than one cell exactly when it ends away from `start`. */
  lemma TreePathLength(cameFrom: CameFrom, start: Cell, end: Cell, p: seq<Cell>)
    requires IsTreePath(cameFrom, start, end, p)
    requires cameFrom[start] == None
    ensures |p| > 1 <==> end != start
  {
    if |p| > 1 {
      assert cameFrom[p[|p| - 1]] == Some(p[|p| - 2]);
    }
  }

  /** There is only one tree path to a cell: following predecessors is deterministic. */
  lemma {:induction false} TreePathUnique(cameFrom: CameFrom, start: Cell, end: Cell, p: seq<Cell>, q: seq<Cell>)
    requires start in cameFrom && cameFrom[start] == None
    requires IsTreePath(cameFrom, start, end, p) && IsTreePath(cameFrom, start, end, q)
    ensures p == q
    decreases |p|
  {
    TreePathLength(cameFrom, start, end, p);
    TreePathLength(cameFrom, start, end, q);
    if |p| > 1 {
      var p', q' := p[..|p| - 1], q[..|q| - 1];
      assert p[|p| - 2] == q[|q| - 2] by {
        assert cameFrom[end] == Some(p[|p| - 2]) == Some(q[|q| - 2]);
      }
      assert IsTreePath(cameFrom, start, p[|p| - 2], p');
      assert IsTreePath(cameFrom, start, p[|p| - 2], q');
      TreePathUnique(cameFrom, start, p[|p| - 2], p', q');
      assert p == p' + [end] && q == q' + [end];
    } else {
      assert p == [start] == q;
    }
  }

  /** Along a tree path, the rank of a cell is below the rank of every later cell. */
  lemma {:induction false} RankGrows(cameFrom: CameFrom, rank: map<Cell, nat>, start: Cell, end: Cell,
                                     p: seq<Cell>, i: int, j: int)
    requires Ranked(cameFrom, rank)
    requires IsTreePath(cameFrom, start, end, p)
    requires 0 <= i < j < |p|
    ensures p[i] in rank && p[j] in rank && rank[p[i]] < rank[p[j]]
    decreases j - i
  {
    assert p[j - 1] in cameFrom && cameFrom[p[j]] == Some(p[j - 1]);
    if i < j - 1 {
      RankGrows(cameFrom, rank, start, end, p, i, j - 1);
    }
  }

  /** A tree path of an acyclic map visits no cell twice. */
  lemma TreePathNoRepeat(cameFrom: CameFrom, start: Cell, end: Cell, p: seq<Cell>)
    requires Acyclic(cameFrom)
    requires IsTreePath(cameFrom, start, end, p)
    ensures NoDuplicates(p)
  {
    var rank :| Ranked(cameFrom, rank);
    forall i, j | 0 <= i < j < |p|
      ensures p[i] != p[j]
    {
      RankGrows(cameFrom, rank, start, end, p, i, j);
    }
  }

  /**
   * Two search trees whose paths to `end` are both cheapest give paths of equal cost: so Dijkstra
   * and A* on the same grid find routes of the same weight, though not always the same route.
   */
  lemma CheapestPathsAgree(cols: int, rows: int, obstacles: set<Cell>, weights: map<Cell, int>,
                           start: Cell, end: Cell, cameFrom1: CameFrom, cameFrom2: CameFrom, p1: seq<Cell>, p2: seq<Cell>)
    requires IsSearchTree(cols, rows, obstacles, start, cameFrom1) && IsSearchTree(cols, rows, obstacles, start, cameFrom2)
    requires CheapestTreePath(cols, rows, obstacles, weights, cameFrom1, start, end)
    requires CheapestTreePath(cols, rows, obstacles, weights, cameFrom2, start, end)
    requires IsTreePath(cameFrom1, start, end, p1) && IsTreePath(cameFrom2, start, end, p2)
    ensures PathCost(weights, p1) == PathCost(weights, p2)
  {
    TreePathIsPath(cols, rows, obstacles, start, end, cameFrom1, p1);
    TreePathIsPath(cols, rows, obstacles, start, end, cameFrom2, p2);
  }

  /**
   * When every cell costs 1, a shortest tree path and a cheapest one have the same number of cells:
   * so BFS's path is as long as Dijkstra's and A*'s on a grid whose stored weights are all 1, or absent.
   */
  lemma ShortestMatchesCheapest(cols: int, rows: int, obstacles: set<Cell>, weights: map<Cell, int>, start: Cell, end: Cell,
                                cameFrom1: CameFrom, cameFrom2: CameFrom, p1: seq<Cell>, p2: seq<Cell>)
    requires IsSearchTree(cols, rows, obstacles, start, cameFrom1) && IsSearchTree(cols, rows, obstacles, start, cameFrom2)
    requires ShortestTreePath(cols, rows, obstacles, cameFrom1, start, end)
    requires UnitWeights(weights)
    requires CheapestTreePath(cols, rows, obstacles, weights, cameFrom2, start, end)
    requires IsTreePath(cameFrom1, start, end, p1) && IsTreePath(cameFrom2, start, end, p2)
    ensures |p1| == |p2|
  {
    TreePathIsPath(cols, rows, obstacles, start, end, cameFrom1, p1);
    TreePathIsPath(cols, rows, obstacles, start, end, cameFrom2, p2);
    UnitPathCost(weights, p1);
    UnitPathCost(weights, p2);
  }

  /** When costs grow along predecessor links, a tree path costs at most the growth of cost along it. */
  lemma {:induction false} TreePathCost(cameFrom: CameFrom, start: Cell, end: Cell, weights: map<Cell, int>,
                                        g: map<Cell, int>, p: seq<Cell>)
    requires IsTreePath(cameFrom, start, end, p)
    requires cameFrom[start] == None
    requires CostsGrow(cameFrom, start, weights, g)
    requires start in g
    ensures end in g && PathCost(weights, p) <= g[end] - g[start]
    decreases |p|
  {
    if |p| > 1 {
      var q := p[..|p| - 1];
      assert cameFrom[end] == Some(p[|p| - 2]);
      assert IsTreePath(cameFrom, start, p[|p| - 2], q);
      TreePathCost(cameFrom, start, p[|p| - 2], weights, g, q);
    }
  }
}

/** `dfs`: a LIFO list, so the most recently discovered cell is expanded next. */
module DepthFirst {
  import opened Wrappers
  import opened Grid
  import opened Paths
  import opened PredecessorTree
  import opened Frontier
  import opened Measure
  import opened UnweightedSearch

  /** Every discovered cell off the stack has had all its in-bounds, non-obstacle neighbours discovered. */
  ghost predicate Closed(b: Board, v: Visit)
  {
    forall c :: c in v.cameFrom && c !in v.frontier ==> Expanded(b.cols, b.rows, b.obstacles, v.cameFrom.Keys, c)
  }

  ghost predicate DfsInvariant(b: Board, v: Visit, depth: map<Cell, int>)
  {
    && TreeShape(b, v.cameFrom, depth)
    && FrontierSound(v.frontier, v.cameFrom)
    && Closed(b, v)
  }

  lemma InitialDfs(b: Board)
    ensures DfsInvariant(b, InitialVisit(b), map[b.start := 0])
  {
    InitialShape(b);
  }

  /** Popping the top of the stack and expanding it keeps the invariant. */
  lemma DfsStep(b: Board, v: Visit, depth: map<Cell, int>)
    requires DfsInvariant(b, v, depth)
    requires |v.frontier| > 0
    ensures var k := |v.frontier| - 1;
            var cur := v.frontier[k];
            var v' := Discover(b, cur, Visit(v.frontier[..k], v.cameFrom));
            DfsInvariant(b, v', Deepen(depth, v'.cameFrom, cur))
  {
    var k := |v.frontier| - 1;
    var cur := v.frontier[k];
    var v1 := Visit(v.frontier[..k], v.cameFrom);
    var v' := Discover(b, cur, v1);
    PopKeepsFrontier(v.frontier, v.cameFrom, k);
    assert v.frontier[..k] + v.frontier[k + 1..] == v.frontier[..k];
    DiscoverKeepsShape(b, cur, v1, depth);
    DiscoverKeepsFrontier(b, cur, v1);
    DiscoverMeaning(b, cur, v1);
    forall c | c in v'.cameFrom && c !in v'.frontier
      ensures Expanded(b.cols, b.rows, b.obstacles, v'.cameFrom.Keys, c)
    {
      assert c in v.cameFrom && c !in v.frontier[..k];
      if c != cur {
        assert Expanded(b.cols, b.rows, b.obstacles, v.cameFrom.Keys, c);
      }
    }
  }

  /**
   * What `dfs` returns: an acyclic search tree that holds `end` exactly when `end` is reachable.
   * Either `end` was discovered, or the stack ran empty and the discovered cells are closed under
   * expansion, so they hold every reachable cell.
   */
  lemma DfsConclude(b: Board, v: Visit, depth: map<Cell, int>)
    requires DfsInvariant(b, v, depth)
    requires b.end in v.cameFrom || v.frontier == []
    ensures IsSearchTree(b.cols, b.rows, b.obstacles, b.start, v.cameFrom)
    ensures Acyclic(v.cameFrom)
    ensures b.end in v.cameFrom <==> Reachable(b.cols, b.rows, b.obstacles, b.start, b.end)
  {
    ShapeAcyclic(b, v.cameFrom, depth);
    if Reachable(b.cols, b.rows, b.obstacles, b.start, b.end) && b.end !in v.cameFrom {
      var q :| IsPathFromTo(b.cols, b.rows, b.obstacles, q, b.start, b.end);
      ClosedReach(b.cols, b.rows, b.obstacles, v.cameFrom.Keys, q);
    }
  }

  /**
   * `dfs(start, end, obstacles, weights)` on a `cols` by `rows` grid (`weights` only colours the
   * drawing). The returned `came_from` is an acyclic search tree holding `end` exactly when `end`
   * is reachable.
   */
  method Dfs(cols: int, rows: int, start: Cell, end: Cell, obstacles: set<Cell>) returns (cameFrom: CameFrom)
    ensures IsSearchTree(cols, rows, obstacles, start, cameFrom)
    ensures Acyclic(cameFrom)
    ensures end in cameFrom <==> Reachable(cols, rows, obstacles, start, end)
  {
    var b := Board(cols, rows, obstacles, start, end);
    var stack := [start];
    cameFrom := map[start := None];
    ghost var depth: map<Cell, int> := map[start := 0];
    InitialDfs(b);
    ghost var found := false;
    while |stack| > 0
      invariant DfsInvariant(b, Visit(stack, cameFrom), depth)
      decreases Unreached(Universe(cols, rows, start), cameFrom.Keys), |stack|
    {
      ghost var before := Visit(stack, cameFrom);
      var current := stack[|stack| - 1];
      stack := stack[..|stack| - 1];
      if current == end {
        DfsConclude(b, before, depth);
        found := true;
        break;
      }
      DfsStep(b, before, depth);
      DiscoverLowers(b, current, Visit(stack, cameFrom));
      var v' := DiscoverNeighbors(b, current, Visit(stack, cameFrom));
      stack, cameFrom := v'.frontier, v'.cameFrom;
      depth := Deepen(depth, cameFrom, current);
    }
    if !found {
      DfsConclude(b, Visit(stack, cameFrom), depth);
    }
  }
}

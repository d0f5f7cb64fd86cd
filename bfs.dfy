/** `bfs`: a FIFO deque, so cells leave the frontier in order of their depth in the tree. */
module BreadthFirst {
  import opened Wrappers
  import opened Grid
  import opened Paths
  import opened PredecessorTree
  import opened Frontier
  import opened Measure
  import opened UnweightedSearch

  /** The deque holds cells of depth `level` up to position `split`, and cells of depth `level + 1` from there on. */
  ghost predicate Levels(queue: seq<Cell>, depth: map<Cell, int>, level: int, split: int)
  {
    && 0 <= split <= |queue|
    && forall i :: 0 <= i < |queue| ==> queue[i] in depth && depth[queue[i]] == if i < split then level else level + 1
  }

  /** Every discovered cell off the deque has been expanded, at depth at most `level`. */
  ghost predicate Settled(b: Board, v: Visit, depth: map<Cell, int>, level: int)
  {
    forall c :: c in v.cameFrom && c !in v.frontier ==>
      c in depth && depth[c] <= level && Relaxed(b.cols, b.rows, b.obstacles, map[], depth, c)
  }

  ghost predicate BfsInvariant(b: Board, v: Visit, depth: map<Cell, int>, level: int, split: int)
  {
    && TreeShape(b, v.cameFrom, depth)
    && FrontierSound(v.frontier, v.cameFrom)
    && Levels(v.frontier, depth, level, split)
    && Settled(b, v, depth, level)
  }

  lemma InitialBfs(b: Board)
    ensures BfsInvariant(b, InitialVisit(b), map[b.start := 0], 0, 1)
  {
    InitialShape(b);
  }

  /** Where the deeper level starts after popping the front: one earlier, or, once the shallower level is used up, after all the old cells. */
  function NextSplit(queue: seq<Cell>, split: int): int
  {
    if split > 0 then split - 1 else |queue| - 1
  }

  /** After the pop and the expansion, the deque again holds one level followed by the next. */
  lemma StepLevels(b: Board, v: Visit, depth: map<Cell, int>, level: int, split: int)
    requires Levels(v.frontier, depth, level, split) && depth.Keys == v.cameFrom.Keys
    requires |v.frontier| > 0
    ensures var cur := v.frontier[0];
            var v' := Discover(b, cur, Visit(v.frontier[1..], v.cameFrom));
            Levels(v'.frontier, Deepen(depth, v'.cameFrom, cur), depth[cur], NextSplit(v.frontier, split))
  {
    var cur := v.frontier[0];
    var rest := v.frontier[1..];
    var v' := Discover(b, cur, Visit(rest, v.cameFrom));
    DiscoverAppends(b, cur, Visit(rest, v.cameFrom));
    var depth', f := Deepen(depth, v'.cameFrom, cur), v'.frontier;
    forall i | 0 <= i < |f|
      ensures f[i] in depth'
      ensures depth'[f[i]] == if i < NextSplit(v.frontier, split) then depth[cur] else depth[cur] + 1
    {
      if i < |rest| {
        assert f[i] == f[..|rest|][i] == v.frontier[i + 1];
      }
    }
  }

  /** After its expansion, the popped cell is relaxed: each of its neighbours is at most one deeper. */
  lemma PoppedRelaxed(b: Board, v: Visit, depth: map<Cell, int>, level: int, split: int)
    requires Levels(v.frontier, depth, level, split) && Settled(b, v, depth, level) && depth.Keys == v.cameFrom.Keys
    requires |v.frontier| > 0
    ensures var cur := v.frontier[0];
            var v' := Discover(b, cur, Visit(v.frontier[1..], v.cameFrom));
            Relaxed(b.cols, b.rows, b.obstacles, map[], Deepen(depth, v'.cameFrom, cur), cur)
  {
    var cur := v.frontier[0];
    var v1 := Visit(v.frontier[1..], v.cameFrom);
    var v' := Discover(b, cur, v1);
    DiscoverMeaning(b, cur, v1);
    var depth' := Deepen(depth, v'.cameFrom, cur);
    forall n | IsValidCell(b.cols, b.rows, n) && Adjacent(cur, n) && n !in b.obstacles
      ensures n in depth' && depth'[n] <= depth'[cur] + Weight(map[], n)
    {
      if n in v.frontier[1..] {
        var i :| 0 <= i < |v.frontier[1..]| && v.frontier[1..][i] == n;
        assert v.frontier[i + 1] == n;
      } else if n in v.cameFrom {
        assert n !in v.frontier by {
          assert Adjacent(cur, n);
        }
      }
    }
  }

  /** After the pop and the expansion, every discovered cell off the deque is expanded. */
  lemma StepSettled(b: Board, v: Visit, depth: map<Cell, int>, level: int, split: int)
    requires Levels(v.frontier, depth, level, split) && Settled(b, v, depth, level) && depth.Keys == v.cameFrom.Keys
    requires |v.frontier| > 0
    ensures var cur := v.frontier[0];
            var v' := Discover(b, cur, Visit(v.frontier[1..], v.cameFrom));
            Settled(b, v', Deepen(depth, v'.cameFrom, cur), depth[cur])
  {
    var cur := v.frontier[0];
    var v1 := Visit(v.frontier[1..], v.cameFrom);
    var v' := Discover(b, cur, v1);
    DiscoverMeaning(b, cur, v1);
    var depth' := Deepen(depth, v'.cameFrom, cur);
    PoppedRelaxed(b, v, depth, level, split);
    forall c | c in v'.cameFrom && c !in v'.frontier && c != cur
      ensures c in depth' && depth'[c] <= depth[cur] && Relaxed(b.cols, b.rows, b.obstacles, map[], depth', c)
    {
      assert c in v.cameFrom && c !in v.frontier;
      assert Relaxed(b.cols, b.rows, b.obstacles, map[], depth, c);
      forall n | IsValidCell(b.cols, b.rows, n) && Adjacent(c, n) && n !in b.obstacles
        ensures n in depth' && depth'[n] <= depth'[c] + Weight(map[], n)
      {
        assert n in depth && depth[n] <= depth[c] + 1;
      }
    }
  }

  /** One round of the loop keeps the invariant, with the popped cell's depth as the new level. */
  lemma BfsStep(b: Board, v: Visit, depth: map<Cell, int>, level: int, split: int)
    requires BfsInvariant(b, v, depth, level, split)
    requires |v.frontier| > 0
    ensures var cur := v.frontier[0];
            var v' := Discover(b, cur, Visit(v.frontier[1..], v.cameFrom));
            BfsInvariant(b, v', Deepen(depth, v'.cameFrom, cur), depth[cur], NextSplit(v.frontier, split))
  {
    var cur := v.frontier[0];
    var v1 := Visit(v.frontier[1..], v.cameFrom);
    PopKeepsFrontier(v.frontier, v.cameFrom, 0);
    assert v.frontier[..0] + v.frontier[1..] == v.frontier[1..];
    DiscoverKeepsShape(b, cur, v1, depth);
    DiscoverKeepsFrontier(b, cur, v1);
    StepLevels(b, v, depth, level, split);
    StepSettled(b, v, depth, level, split);
  }

  /**
   * When `end` is at the front of the deque, or the deque is empty, no walk to `end` has fewer steps
   * than `end`'s depth: a shorter walk would pass a queued cell shallower than the front.
   */
  lemma BfsBeats(b: Board, v: Visit, depth: map<Cell, int>, level: int, split: int, q: seq<Cell>)
    requires BfsInvariant(b, v, depth, level, split)
    requires v.frontier == [] || v.frontier[0] == b.end
    requires IsPathFromTo(b.cols, b.rows, b.obstacles, q, b.start, b.end)
    ensures b.end in depth && depth[b.end] <= |q| - 1
  {
    var pending := set i | 0 <= i < |v.frontier| :: v.frontier[i];
    var j := ScanPath(b.cols, b.rows, b.obstacles, map[], depth, pending, q);
    UnitPathCost(map[], q[..j + 1]);
    if j == |q| - 1 {
      assert q[..j + 1] == q;
    } else {
      var i :| 0 <= i < |v.frontier| && v.frontier[i] == q[j];
      assert depth[v.frontier[0]] <= depth[v.frontier[i]];
    }
  }

  lemma BfsIsShortest(b: Board, v: Visit, depth: map<Cell, int>, level: int, split: int)
    requires BfsInvariant(b, v, depth, level, split)
    requires v.frontier == [] || v.frontier[0] == b.end
    ensures forall q :: IsPathFromTo(b.cols, b.rows, b.obstacles, q, b.start, b.end) ==>
              b.end in depth && depth[b.end] <= |q| - 1
  {
    forall q | IsPathFromTo(b.cols, b.rows, b.obstacles, q, b.start, b.end)
      ensures b.end in depth && depth[b.end] <= |q| - 1
    {
      BfsBeats(b, v, depth, level, split, q);
    }
  }

  /**
   * What `bfs` returns: an acyclic search tree that holds `end` exactly when `end` is reachable,
   * and whose path to `end` then has as few steps as any walk.
   */
  lemma BfsConclude(b: Board, cameFrom: CameFrom, depth: map<Cell, int>)
    requires TreeShape(b, cameFrom, depth)
    requires forall q :: IsPathFromTo(b.cols, b.rows, b.obstacles, q, b.start, b.end) ==>
               b.end in depth && depth[b.end] <= |q| - 1
    ensures IsSearchTree(b.cols, b.rows, b.obstacles, b.start, cameFrom)
    ensures Acyclic(cameFrom)
    ensures b.end in cameFrom <==> Reachable(b.cols, b.rows, b.obstacles, b.start, b.end)
    ensures b.end in cameFrom ==> ShortestTreePath(b.cols, b.rows, b.obstacles, cameFrom, b.start, b.end)
  {
    ShapeAcyclic(b, cameFrom, depth);
    if b.end in cameFrom {
      forall a, q | IsTreePath(cameFrom, b.start, b.end, a) && IsPathFromTo(b.cols, b.rows, b.obstacles, q, b.start, b.end)
        ensures |a| <= |q|
      {
        TreePathCost(cameFrom, b.start, b.end, map[], depth, a);
        UnitPathCost(map[], a);
      }
    }
  }

  /**
   * `bfs(start, end, obstacles, weights)` on a `cols` by `rows` grid (`weights` only colours the
   * drawing). The returned `came_from` is an acyclic search tree holding `end` exactly when `end`
   * is reachable, and then along a walk with the fewest steps.
   */
  method Bfs(cols: int, rows: int, start: Cell, end: Cell, obstacles: set<Cell>) returns (cameFrom: CameFrom)
    ensures IsSearchTree(cols, rows, obstacles, start, cameFrom)
    ensures Acyclic(cameFrom)
    ensures end in cameFrom <==> Reachable(cols, rows, obstacles, start, end)
    ensures end in cameFrom ==> ShortestTreePath(cols, rows, obstacles, cameFrom, start, end)
  {
    var b := Board(cols, rows, obstacles, start, end);
    var queue := [start];
    cameFrom := map[start := None];
    ghost var depth: map<Cell, int> := map[start := 0];
    ghost var level, split := 0, 1;
    InitialBfs(b);
    ghost var found := false;
    while |queue| > 0
      invariant BfsInvariant(b, Visit(queue, cameFrom), depth, level, split)
      decreases Unreached(Universe(cols, rows, start), cameFrom.Keys), |queue|
    {
      ghost var before := Visit(queue, cameFrom);
      var current := queue[0];
      queue := queue[1..];
      if current == end {
        BfsIsShortest(b, before, depth, level, split);
        BfsConclude(b, cameFrom, depth);
        found := true;
        break;
      }
      BfsStep(b, before, depth, level, split);
      DiscoverLowers(b, current, Visit(queue, cameFrom));
      var v' := DiscoverNeighbors(b, current, Visit(queue, cameFrom));
      queue, cameFrom := v'.frontier, v'.cameFrom;
      level, split := depth[current], NextSplit(before.frontier, split);
      depth := Deepen(depth, cameFrom, current);
    }
    if !found {
      BfsIsShortest(b, Visit(queue, cameFrom), depth, level, split);
      BfsConclude(b, cameFrom, depth);
    }
  }
}

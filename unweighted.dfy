/**
 * What `bfs` and `dfs` share: the loop over `get_neighbors(current)` that appends every neighbour
 * neither an obstacle nor yet in `came_from` to the frontier (the deque or the stack) and records
 * `current` as its predecessor, and the shape of the tree that builds.
 */
module UnweightedSearch {
  import opened Wrappers
  import opened Grid
  import opened Paths
  import opened PredecessorTree
  import opened Measure

  /** The inputs of `bfs` and `dfs` that the search reads. */
  datatype Board = Board(cols: int, rows: int, obstacles: set<Cell>, start: Cell, end: Cell)

  /** The loop state: the frontier (deque or stack, front at index 0) and `came_from`. */
  datatype Visit = Visit(frontier: seq<Cell>, cameFrom: CameFrom)

  /** The state before the loop: `start` alone, on the frontier and mapped to `None`. */
  function InitialVisit(b: Board): Visit
  {
    Visit([b.start], map[b.start := None])
  }

  /** `neighbor not in obstacles and neighbor not in came_from`. */
  predicate IsFresh(b: Board, cameFrom: CameFrom, n: Cell)
  {
    n !in b.obstacles && n !in cameFrom
  }

  /** One pass of the neighbour loop: a fresh `n` is appended to the frontier with `cur` as predecessor. */
  function DiscoverOne(b: Board, cur: Cell, n: Cell, v: Visit): Visit
  {
    if IsFresh(b, v.cameFrom, n) then Visit(v.frontier + [n], v.cameFrom[n := Some(cur)]) else v
  }

  /** The state after the passes for the cells of `done`, in order. */
  function DiscoverAlong(b: Board, cur: Cell, v: Visit, done: seq<Cell>): Visit
    decreases |done|
  {
    if done == [] then v else DiscoverOne(b, cur, done[|done| - 1], DiscoverAlong(b, cur, v, done[..|done| - 1]))
  }

  /** The whole loop over `get_neighbors(cur)`. */
  function Discover(b: Board, cur: Cell, v: Visit): Visit
  {
    DiscoverAlong(b, cur, v, Neighbors(b.cols, b.rows, cur))
  }

  /** The cells of `ns` that are fresh with respect to `cameFrom`, in order. */
  function Fresh(b: Board, cameFrom: CameFrom, ns: seq<Cell>): seq<Cell>
    decreases |ns|
  {
    if ns == [] then []
    else Fresh(b, cameFrom, ns[..|ns| - 1]) + (if IsFresh(b, cameFrom, ns[|ns| - 1]) then [ns[|ns| - 1]] else [])
  }

  lemma {:induction false} InFresh(b: Board, cameFrom: CameFrom, ns: seq<Cell>)
    ensures forall c :: c in Fresh(b, cameFrom, ns) <==> c in ns && IsFresh(b, cameFrom, c)
    decreases |ns|
  {
    if ns != [] {
      InFresh(b, cameFrom, ns[..|ns| - 1]);
      assert forall c :: c in ns <==> c in ns[..|ns| - 1] || c == ns[|ns| - 1];
    }
  }

  lemma {:induction false} FreshNoDuplicates(b: Board, cameFrom: CameFrom, ns: seq<Cell>)
    requires NoDuplicates(ns)
    ensures NoDuplicates(Fresh(b, cameFrom, ns))
    decreases |ns|
  {
    if ns != [] {
      var rest, last := ns[..|ns| - 1], ns[|ns| - 1];
      assert NoDuplicates(rest) by {
        forall i, j | 0 <= i < j < |rest|
          ensures rest[i] != rest[j]
        {
          assert rest[i] == ns[i] && rest[j] == ns[j];
        }
      }
      FreshNoDuplicates(b, cameFrom, rest);
      InFresh(b, cameFrom, rest);
      assert last !in rest by {
        forall i | 0 <= i < |rest|
          ensures rest[i] != last
        {
          assert rest[i] == ns[i];
        }
      }
      NoDuplicatesConcat(Fresh(b, cameFrom, rest), if IsFresh(b, cameFrom, last) then [last] else []);
    }
  }

  /**
   * Passing over distinct cells appends exactly their fresh ones to the frontier, in order, and
   * gives those, and only those, `cur` as predecessor.
   */
  lemma {:induction false} AlongMeaning(b: Board, cur: Cell, v: Visit, done: seq<Cell>)
    requires Distinct(done)
    ensures var v' := DiscoverAlong(b, cur, v, done);
            && v'.frontier == v.frontier + Fresh(b, v.cameFrom, done)
            && (forall c :: c in v'.cameFrom <==> c in v.cameFrom || c in Fresh(b, v.cameFrom, done))
            && (forall c :: c in v'.cameFrom ==> v'.cameFrom[c] == if c in v.cameFrom then v.cameFrom[c] else Some(cur))
    decreases |done|
  {
    if done != [] {
      var rest, last := done[..|done| - 1], done[|done| - 1];
      AlongMeaning(b, cur, v, rest);
      InFresh(b, v.cameFrom, rest);
      var v1 := DiscoverAlong(b, cur, v, rest);
      assert IsFresh(b, v1.cameFrom, last) == IsFresh(b, v.cameFrom, last);
    }
  }

  /** Expanding `cur`: its fresh neighbours, in `get_neighbors` order, join the frontier and the tree under `cur`. */
  lemma DiscoverMeaning(b: Board, cur: Cell, v: Visit)
    ensures var v' := Discover(b, cur, v); var added := Fresh(b, v.cameFrom, Neighbors(b.cols, b.rows, cur));
            && v'.frontier == v.frontier + added
            && NoDuplicates(added)
            && (forall c :: c in added <==> IsValidCell(b.cols, b.rows, c) && Adjacent(cur, c) && IsFresh(b, v.cameFrom, c))
            && (forall c :: c in v'.cameFrom <==> c in v.cameFrom || c in added)
            && (forall c :: c in v'.cameFrom ==> v'.cameFrom[c] == if c in v.cameFrom then v.cameFrom[c] else Some(cur))
  {
    var ns := Neighbors(b.cols, b.rows, cur);
    NeighborsAreDistinct(b.cols, b.rows, cur);
    NeighborsDistinct(b.cols, b.rows, cur);
    NeighborsNear(b.cols, b.rows, cur);
    AlongMeaning(b, cur, v, ns);
    InFresh(b, v.cameFrom, ns);
    FreshNoDuplicates(b, v.cameFrom, ns);
    forall c | IsValidCell(b.cols, b.rows, c) && Adjacent(cur, c)
      ensures c in ns
    {
      NeighborsComplete(b.cols, b.rows, cur, c);
    }
  }

  /** Expanding `cur` appends cells that were not yet discovered and now are, and forgets no discovered cell. */
  lemma DiscoverAppends(b: Board, cur: Cell, v: Visit)
    ensures var v' := Discover(b, cur, v);
            && |v.frontier| <= |v'.frontier|
            && v'.frontier[..|v.frontier|] == v.frontier
            && (forall i :: |v.frontier| <= i < |v'.frontier| ==> v'.frontier[i] !in v.cameFrom && v'.frontier[i] in v'.cameFrom)
            && (forall c :: c in v.cameFrom ==> c in v'.cameFrom)
  {
    var v' := Discover(b, cur, v);
    var added := Fresh(b, v.cameFrom, Neighbors(b.cols, b.rows, cur));
    DiscoverMeaning(b, cur, v);
    forall i | |v.frontier| <= i < |v'.frontier|
      ensures v'.frontier[i] !in v.cameFrom && v'.frontier[i] in v'.cameFrom
    {
      assert v'.frontier[i] == added[i - |v.frontier|];
      assert v'.frontier[i] in added;
    }
    assert v'.frontier[..|v.frontier|] == v.frontier;
  }

  /**
   * The body of the loop over `get_neighbors(current)`: a neighbour that is neither an obstacle nor
   * already discovered is appended to the frontier with `current` as predecessor.
   */
  method DiscoverNeighbor(b: Board, current: Cell, neighbor: Cell, frontier: seq<Cell>, cameFrom: CameFrom)
    returns (frontier': seq<Cell>, cameFrom': CameFrom)
    ensures Visit(frontier', cameFrom') == DiscoverOne(b, current, neighbor, Visit(frontier, cameFrom))
  {
    frontier', cameFrom' := frontier, cameFrom;
    if neighbor !in b.obstacles && neighbor !in cameFrom {
      frontier' := frontier + [neighbor];
      cameFrom' := cameFrom[neighbor := Some(current)];
    }
  }

  /** The loop over `get_neighbors(current)`. */
  method DiscoverNeighbors(b: Board, current: Cell, v: Visit) returns (v': Visit)
    ensures v' == Discover(b, current, v)
  {
    var neighbors := GetNeighbors(b.cols, b.rows, current);
    var frontier, cameFrom := v.frontier, v.cameFrom;
    var i := 0;
    assert neighbors[..0] == [];
    while i < |neighbors|
      invariant 0 <= i <= |neighbors|
      invariant Visit(frontier, cameFrom) == DiscoverAlong(b, current, v, neighbors[..i])
    {
      assert neighbors[..i + 1][..i] == neighbors[..i];
      frontier, cameFrom := DiscoverNeighbor(b, current, neighbors[i], frontier, cameFrom);
      i := i + 1;
    }
    assert neighbors[..i] == neighbors;
    v' := Visit(frontier, cameFrom);
  }

  // ---------------------------------------------------------------------------------------------
  // The tree and the frontier

  /**
   * `came_from` is a search tree and `depth` counts the links from `start`: it is 0 at `start` and
   * grows by at least one along every predecessor link.
   */
  ghost predicate TreeShape(b: Board, cameFrom: CameFrom, depth: map<Cell, int>)
  {
    && IsSearchTree(b.cols, b.rows, b.obstacles, b.start, cameFrom)
    && depth.Keys == cameFrom.Keys
    && depth[b.start] == 0
    && (forall c :: c in depth ==> depth[c] >= 0)
    && CostsGrow(cameFrom, b.start, map[], depth)
  }

  /** The frontier holds discovered cells, each once. */
  predicate FrontierSound(frontier: seq<Cell>, cameFrom: CameFrom)
  {
    && (forall i :: 0 <= i < |frontier| ==> frontier[i] in cameFrom)
    && NoDuplicates(frontier)
  }

  /** The depths after expanding `cur`: newly discovered cells sit one below `cur`. */
  function Deepen(depth: map<Cell, int>, cameFrom: CameFrom, cur: Cell): map<Cell, int>
    requires cur in depth
  {
    map c | c in cameFrom :: if c in depth then depth[c] else depth[cur] + 1
  }

  lemma InitialShape(b: Board)
    ensures TreeShape(b, InitialVisit(b).cameFrom, map[b.start := 0])
    ensures FrontierSound(InitialVisit(b).frontier, InitialVisit(b).cameFrom)
  {
  }

  /** Removing the frontier's element at `k` keeps it sound. */
  lemma PopKeepsFrontier(frontier: seq<Cell>, cameFrom: CameFrom, k: int)
    requires FrontierSound(frontier, cameFrom)
    requires 0 <= k < |frontier|
    ensures FrontierSound(frontier[..k] + frontier[k + 1..], cameFrom)
    ensures forall c :: c in frontier[..k] + frontier[k + 1..] <==> c in frontier && c != frontier[k]
  {
    var f := frontier[..k] + frontier[k + 1..];
    assert forall i :: 0 <= i < |f| ==> f[i] == if i < k then frontier[i] else frontier[i + 1];
    forall c | c in frontier && c != frontier[k]
      ensures c in f
    {
      var i :| 0 <= i < |frontier| && frontier[i] == c;
      assert f[if i < k then i else i - 1] == c;
    }
  }

  /** Expanding a discovered cell keeps the tree shape, new cells one below it. */
  lemma DiscoverKeepsShape(b: Board, cur: Cell, v: Visit, depth: map<Cell, int>)
    requires TreeShape(b, v.cameFrom, depth)
    requires cur in v.cameFrom
    ensures var v' := Discover(b, cur, v); TreeShape(b, v'.cameFrom, Deepen(depth, v'.cameFrom, cur))
  {
    var v' := Discover(b, cur, v);
    var added := Fresh(b, v.cameFrom, Neighbors(b.cols, b.rows, cur));
    DiscoverMeaning(b, cur, v);
    var depth' := Deepen(depth, v'.cameFrom, cur);
    forall n | n in v'.cameFrom && n != b.start
      ensures v'.cameFrom[n].Some? && v'.cameFrom[n].value in v'.cameFrom
           && IsValidCell(b.cols, b.rows, n) && n !in b.obstacles && Adjacent(v'.cameFrom[n].value, n)
      ensures n in depth' && v'.cameFrom[n].value in depth' && depth'[n] >= depth'[v'.cameFrom[n].value] + Weight(map[], n)
    {
      if n !in v.cameFrom {
        assert n in added;
      }
    }
  }

  /** Expanding keeps the frontier sound and only adds to `came_from`. */
  lemma DiscoverKeepsFrontier(b: Board, cur: Cell, v: Visit)
    requires FrontierSound(v.frontier, v.cameFrom)
    ensures var v' := Discover(b, cur, v); FrontierSound(v'.frontier, v'.cameFrom) && v.cameFrom.Keys <= v'.cameFrom.Keys
  {
    var v' := Discover(b, cur, v);
    var added := Fresh(b, v.cameFrom, Neighbors(b.cols, b.rows, cur));
    DiscoverMeaning(b, cur, v);
    NoDuplicatesConcat(v.frontier, added);
    assert forall i :: 0 <= i < |v'.frontier| ==> v'.frontier[i] in v.frontier || v'.frontier[i] in added;
  }

  /** Expanding discovers a cell of the universe, unless it changes nothing. */
  lemma DiscoverLowers(b: Board, cur: Cell, v: Visit)
    ensures var v' := Discover(b, cur, v);
            v' == v || Unreached(Universe(b.cols, b.rows, b.start), v'.cameFrom.Keys)
                       < Unreached(Universe(b.cols, b.rows, b.start), v.cameFrom.Keys)
  {
    var v' := Discover(b, cur, v);
    var added := Fresh(b, v.cameFrom, Neighbors(b.cols, b.rows, cur));
    DiscoverMeaning(b, cur, v);
    if added != [] {
      var c := added[0];
      var u := Universe(b.cols, b.rows, b.start);
      InUniverse(b.cols, b.rows, b.start, c);
      UnreachedShrinks(u, v.cameFrom.Keys, v'.cameFrom.Keys, c);
    } else {
      assert v'.frontier == v.frontier;
      assert v'.cameFrom == v.cameFrom;
    }
  }

  /** A tree with a depth map is acyclic, and `end`, if discovered, is reachable. */
  lemma ShapeAcyclic(b: Board, cameFrom: CameFrom, depth: map<Cell, int>)
    requires TreeShape(b, cameFrom, depth)
    ensures Acyclic(cameFrom)
    ensures b.end in cameFrom ==> Reachable(b.cols, b.rows, b.obstacles, b.start, b.end)
  {
    var rank: map<Cell, nat> := map c | c in depth :: depth[c];
    assert Ranked(cameFrom, rank);
    if b.end in cameFrom {
      KeysReachable(b.cols, b.rows, b.obstacles, b.start, cameFrom, b.end);
    }
  }
}

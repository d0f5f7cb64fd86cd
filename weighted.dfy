/**
 * What Dijkstra and A* share: the state of their loops (the heap, `came_from` and the cost to come,
 * `cost_to_come` in one and `g_score` in the other), its invariant, the relaxation of a popped
 * cell's neighbours, and the arguments that the loop's two ways of stopping yield cheapest paths.
 */
module WeightedSearch {
  import opened Wrappers
  import opened Grid
  import opened Paths
  import opened PredecessorTree
  import opened Frontier
  import opened Measure
  import opened MinHeap

  /** The inputs of one weighted search, and whether it is A* (`astar`) or Dijkstra. */
  datatype Problem = Problem(cols: int, rows: int, obstacles: set<Cell>, weights: map<Cell, int>,
                             start: Cell, end: Cell, astar: bool)

  /** The loop state: the heap, `came_from` and the recorded cost to come of each discovered cell. */
  datatype State = State(heap: multiset<Entry>, cameFrom: CameFrom, g: map<Cell, int>)

  /** The estimate added to the cost to come in a heap key: `manhattan_distance` to `end` for A*, none for Dijkstra. */
  function Heuristic(p: Problem, c: Cell): nat
  {
    if p.astar then Manhattan(c, p.end) else 0
  }

  /** The entry pushed for `c` at cost `cost`: `(cost, c)` for Dijkstra, `(cost + h, cost, c)` for A*. */
  function EntryFor(p: Problem, c: Cell, cost: int): Entry
  {
    Entry(cost + Heuristic(p, c), cost, c)
  }

  /**
   * The entry the heap starts with: `(0, start)` for Dijkstra, `(0, 0, start)` for A*, whose key
   * leaves out the heuristic of `start`.
   */
  function StartEntry(p: Problem): Entry
  {
    Entry(0, 0, p.start)
  }

  /** The state before the loop: `start` at cost 0, its entry the only one in the heap. */
  function Initial(p: Problem): State
  {
    State(multiset{StartEntry(p)}, map[p.start := None], map[p.start := 0])
  }

  /** The potential of an undiscovered cell: more than any recorded cost can be. */
  function Big(p: Problem): nat
  {
    MAX_WEIGHT * |Universe(p.cols, p.rows, p.start)| + 1
  }

  /** The termination measure: recorded costs, and `Big` for every cell not yet discovered. */
  function SearchPotential(p: Problem, g: map<Cell, int>): nat
  {
    Potential(Universe(p.cols, p.rows, p.start), g, Big(p))
  }

  /** Every recorded cost is at most 9 per discovered position of the universe. */
  ghost predicate CostsBounded(p: Problem, g: map<Cell, int>)
  {
    var u := Universe(p.cols, p.rows, p.start);
    forall c :: c in g ==> 0 <= g[c] <= MAX_WEIGHT * (|u| - Unreached(u, g.Keys))
  }

  /**
   * Every entry's cell is recorded, its cost to come is no better than the recorded one, and its
   * key adds the heuristic (the start entry aside).
   */
  ghost predicate HeapSound(p: Problem, heap: multiset<Entry>, g: map<Cell, int>)
  {
    forall e :: e in heap ==> e.cell in g && e.g >= g[e.cell] && (e.key == e.g + Heuristic(p, e.cell) || e == StartEntry(p))
  }

  /** The invariant of the loop state that does not depend on which cells were expanded. */
  ghost predicate Consistent(p: Problem, s: State)
  {
    && IsSearchTree(p.cols, p.rows, p.obstacles, p.start, s.cameFrom)
    && s.cameFrom.Keys == s.g.Keys
    && s.g[p.start] == 0
    && CostsGrow(s.cameFrom, p.start, p.weights, s.g)
    && CostsBounded(p, s.g)
    && HeapSound(p, s.heap, s.g)
  }

  /** `c` waits in the heap at its recorded cost, so a later pop will expand it. */
  predicate Pending(p: Problem, heap: multiset<Entry>, g: map<Cell, int>, c: Cell)
  {
    c in g && (EntryFor(p, c, g[c]) in heap || (c == p.start && g[c] == 0 && StartEntry(p) in heap))
  }

  /** Every recorded cell outside `skip` is pending or relaxed. */
  ghost predicate CoveredExcept(p: Problem, heap: multiset<Entry>, g: map<Cell, int>, skip: set<Cell>)
  {
    forall c :: c in g && c !in skip ==>
      Pending(p, heap, g, c) || Relaxed(p.cols, p.rows, p.obstacles, p.weights, g, c)
  }

  /** Relaxing `n` from `cur` would lower (or first set) its recorded cost. */
  predicate Improves(p: Problem, g: map<Cell, int>, cur: Cell, n: Cell)
  {
    && IsValidCell(p.cols, p.rows, n)
    && Adjacent(cur, n)
    && n !in p.obstacles
    && cur in g
    && (n !in g || g[cur] + Weight(p.weights, n) < g[n])
  }

  /** One pass of the loop over `get_neighbors(cur)`: an improvable `n` gets the cost through `cur`, `cur` as predecessor, and an entry. */
  function RelaxOne(p: Problem, cur: Cell, n: Cell, s: State): State
  {
    if Improves(p, s.g, cur, n) then
      var cost := s.g[cur] + Weight(p.weights, n);
      State(s.heap + multiset{EntryFor(p, n, cost)}, s.cameFrom[n := Some(cur)], s.g[n := cost])
    else s
  }

  /** The state after the passes for the cells of `done`, in order. */
  function RelaxAlong(p: Problem, cur: Cell, s: State, done: seq<Cell>): State
    decreases |done|
  {
    if done == [] then s else RelaxOne(p, cur, done[|done| - 1], RelaxAlong(p, cur, s, done[..|done| - 1]))
  }

  /** The whole loop over `get_neighbors(cur)`. */
  function Expand(p: Problem, cur: Cell, s: State): State
  {
    RelaxAlong(p, cur, s, Neighbors(p.cols, p.rows, cur))
  }

  /** The entries pushed by relaxing the cells of `ns` from `cur` against the costs `g`. */
  function Pushes(p: Problem, g: map<Cell, int>, cur: Cell, ns: seq<Cell>): multiset<Entry>
    requires cur in g
    decreases |ns|
  {
    if ns == [] then multiset{}
    else
      var n := ns[|ns| - 1];
      Pushes(p, g, cur, ns[..|ns| - 1]) +
      if Improves(p, g, cur, n) then multiset{EntryFor(p, n, g[cur] + Weight(p.weights, n))} else multiset{}
  }

  /**
   * The effect of expanding `cur`, said without the order of the neighbour loop: exactly the
   * improvable cells get the cost through `cur`, `cur` as predecessor and an entry; nothing else changes.
   */
  ghost predicate RelaxedFrom(p: Problem, cur: Cell, s: State, s': State)
    requires cur in s.g
  {
    && (forall c :: c in s'.g <==> c in s.g || Improves(p, s.g, cur, c))
    && (forall c :: c in s'.g ==>
          if Improves(p, s.g, cur, c) then s'.g[c] == s.g[cur] + Weight(p.weights, c) else s'.g[c] == s.g[c])
    && s'.cameFrom.Keys == s'.g.Keys
    && (forall c :: c in s'.cameFrom ==>
          if Improves(p, s.g, cur, c) then s'.cameFrom[c] == Some(cur) else c in s.cameFrom && s'.cameFrom[c] == s.cameFrom[c])
    && s'.heap == s.heap + Pushes(p, s.g, cur, Neighbors(p.cols, p.rows, cur))
  }

  // ---------------------------------------------------------------------------------------------
  // One relaxation

  /** Adding a neighbour of a key, with that key as predecessor, keeps a search tree. */
  lemma RelaxKeepsTree(cols: int, rows: int, obstacles: set<Cell>, start: Cell, cameFrom: CameFrom, cur: Cell, n: Cell)
    requires IsSearchTree(cols, rows, obstacles, start, cameFrom)
    requires cur in cameFrom && n != start
    requires IsValidCell(cols, rows, n) && Adjacent(cur, n) && n !in obstacles
    ensures IsSearchTree(cols, rows, obstacles, start, cameFrom[n := Some(cur)])
  {
  }

  /** Lowering `n`'s cost to at least `cur`'s plus `n`'s weight, with `cur` as predecessor, keeps costs growing. */
  lemma RelaxKeepsGrowth(cameFrom: CameFrom, start: Cell, weights: map<Cell, int>, g: map<Cell, int>,
                         cur: Cell, n: Cell, cost: int)
    requires CostsGrow(cameFrom, start, weights, g)
    requires cur in g && n != cur && n != start
    requires cost >= g[cur] + Weight(weights, n)
    requires n in g ==> cost <= g[n]
    ensures CostsGrow(cameFrom[n := Some(cur)], start, weights, g[n := cost])
  {
    var g', cameFrom' := g[n := cost], cameFrom[n := Some(cur)];
    forall m | m in cameFrom' && m != start
      ensures cameFrom'[m].Some? && m in g' && cameFrom'[m].value in g'
           && g'[m] >= g'[cameFrom'[m].value] + Weight(weights, m)
    {
      if m != n {
        var c := cameFrom[m].value;
        assert g'[c] <= g[c];
      }
    }
  }

  /** A discovered cell's cost is at most 9 above an already recorded one, so the bound survives. */
  lemma RelaxKeepsBound(p: Problem, g: map<Cell, int>, cur: Cell, n: Cell, cost: int)
    requires CostsBounded(p, g)
    requires cur in g && IsValidCell(p.cols, p.rows, n)
    requires 0 <= cost <= g[cur] + MAX_WEIGHT
    requires n in g ==> cost < g[n]
    ensures CostsBounded(p, g[n := cost])
    ensures cost <= MAX_WEIGHT * |Universe(p.cols, p.rows, p.start)|
  {
    var g' := g[n := cost];
    var u := Universe(p.cols, p.rows, p.start);
    InUniverse(p.cols, p.rows, p.start, n);
    UnreachedShrinks(u, g.Keys, g'.Keys, n);
    if n !in g {
      assert Unreached(u, g'.Keys) < Unreached(u, g.Keys);
    } else {
      assert g'.Keys == g.Keys;
    }
  }

  /** Lowering a recorded cost and pushing its entry keeps the heap sound. */
  lemma RelaxKeepsHeap(p: Problem, heap: multiset<Entry>, g: map<Cell, int>, n: Cell, cost: int)
    requires HeapSound(p, heap, g)
    requires n in g ==> cost <= g[n]
    ensures HeapSound(p, heap + multiset{EntryFor(p, n, cost)}, g[n := cost])
  {
  }

  /** An improving relaxation keeps the invariant of the loop state. */
  lemma ImproveKeepsConsistent(p: Problem, cur: Cell, n: Cell, s: State, cost: int)
    requires WeightsInRange(p.weights)
    requires Consistent(p, s)
    requires Improves(p, s.g, cur, n) && cost == s.g[cur] + Weight(p.weights, n)
    ensures Consistent(p, State(s.heap + multiset{EntryFor(p, n, cost)}, s.cameFrom[n := Some(cur)], s.g[n := cost]))
  {
    WeightBounds(p.weights, n);
    assert 0 <= s.g[cur];
    assert n != p.start;
    RelaxKeepsTree(p.cols, p.rows, p.obstacles, p.start, s.cameFrom, cur, n);
    RelaxKeepsGrowth(s.cameFrom, p.start, p.weights, s.g, cur, n, cost);
    RelaxKeepsBound(p, s.g, cur, n, cost);
    RelaxKeepsHeap(p, s.heap, s.g, n, cost);
  }

  /** One relaxation keeps the invariant of the loop state. */
  lemma OneKeepsConsistent(p: Problem, cur: Cell, n: Cell, s: State)
    requires WeightsInRange(p.weights)
    requires Consistent(p, s)
    ensures Consistent(p, RelaxOne(p, cur, n, s))
  {
    if Improves(p, s.g, cur, n) {
      ImproveKeepsConsistent(p, cur, n, s, s.g[cur] + Weight(p.weights, n));
    }
  }

  /** One relaxation keeps costs bounded and lowers the potential unless it changes nothing. */
  lemma OneLowers(p: Problem, cur: Cell, n: Cell, s: State)
    requires WeightsInRange(p.weights)
    requires CostsBounded(p, s.g)
    ensures CostsBounded(p, RelaxOne(p, cur, n, s).g)
    ensures RelaxOne(p, cur, n, s) == s || SearchPotential(p, RelaxOne(p, cur, n, s).g) < SearchPotential(p, s.g)
  {
    if Improves(p, s.g, cur, n) {
      WeightBounds(p.weights, n);
      var cost := s.g[cur] + Weight(p.weights, n);
      assert 0 <= s.g[cur];
      RelaxKeepsBound(p, s.g, cur, n, cost);
      var g' := s.g[n := cost];
      var u, big := Universe(p.cols, p.rows, p.start), Big(p);
      InUniverse(p.cols, p.rows, p.start, n);
      assert CellPotential(g', big, n) < CellPotential(s.g, big, n);
      assert forall x :: x in u ==> CellPotential(g', big, x) <= CellPotential(s.g, big, x);
      PotentialShrinks(u, s.g, g', big, n);
    }
  }

  /** One relaxation from `cur` keeps every other cell pending or relaxed. */
  lemma OneKeepsCovered(p: Problem, cur: Cell, n: Cell, s: State)
    requires CoveredExcept(p, s.heap, s.g, {cur})
    ensures var s' := RelaxOne(p, cur, n, s); CoveredExcept(p, s'.heap, s'.g, {cur})
  {
    if Improves(p, s.g, cur, n) {
      var s' := RelaxOne(p, cur, n, s);
      forall c | c in s'.g && c != cur
        ensures Pending(p, s'.heap, s'.g, c) || Relaxed(p.cols, p.rows, p.obstacles, p.weights, s'.g, c)
      {
        if c != n && !Pending(p, s.heap, s.g, c) {
          assert Relaxed(p.cols, p.rows, p.obstacles, p.weights, s.g, c);
          forall m | IsValidCell(p.cols, p.rows, m) && Adjacent(c, m) && m !in p.obstacles
            ensures m in s'.g && s'.g[m] <= s'.g[c] + Weight(p.weights, m)
          {
            assert m in s.g && s.g[m] <= s.g[c] + Weight(p.weights, m);
          }
        }
      }
    }
  }

  /** A relaxation only adds cells and lowers costs, and never touches `cur`'s. */
  lemma OneMonotone(p: Problem, cur: Cell, n: Cell, s: State)
    ensures var s' := RelaxOne(p, cur, n, s);
            && (forall c :: c in s.g ==> c in s'.g && s'.g[c] <= s.g[c])
            && (cur in s.g ==> s'.g[cur] == s.g[cur])
  {
  }

  /** After its pass, a non-obstacle neighbour is recorded at no more than `cur`'s cost plus its weight. */
  lemma OneRelaxes(p: Problem, cur: Cell, n: Cell, s: State)
    requires cur in s.g
    requires IsValidCell(p.cols, p.rows, n) && Adjacent(cur, n) && n !in p.obstacles
    ensures var s' := RelaxOne(p, cur, n, s);
            cur in s'.g && n in s'.g && s'.g[n] <= s'.g[cur] + Weight(p.weights, n)
  {
  }

  // ---------------------------------------------------------------------------------------------
  // A run of relaxations

  lemma {:induction false} AlongMonotone(p: Problem, cur: Cell, s: State, done: seq<Cell>)
    ensures var s' := RelaxAlong(p, cur, s, done);
            && (forall c :: c in s.g ==> c in s'.g && s'.g[c] <= s.g[c])
            && (cur in s.g ==> s'.g[cur] == s.g[cur])
    decreases |done|
  {
    if done != [] {
      AlongMonotone(p, cur, s, done[..|done| - 1]);
      OneMonotone(p, cur, done[|done| - 1], RelaxAlong(p, cur, s, done[..|done| - 1]));
    }
  }

  lemma {:induction false} AlongKeepsConsistent(p: Problem, cur: Cell, s: State, done: seq<Cell>)
    requires WeightsInRange(p.weights)
    requires Consistent(p, s)
    ensures Consistent(p, RelaxAlong(p, cur, s, done))
    decreases |done|
  {
    if done != [] {
      AlongKeepsConsistent(p, cur, s, done[..|done| - 1]);
      OneKeepsConsistent(p, cur, done[|done| - 1], RelaxAlong(p, cur, s, done[..|done| - 1]));
    }
  }

  lemma {:induction false} AlongLowers(p: Problem, cur: Cell, s: State, done: seq<Cell>)
    requires WeightsInRange(p.weights)
    requires CostsBounded(p, s.g)
    ensures CostsBounded(p, RelaxAlong(p, cur, s, done).g)
    ensures RelaxAlong(p, cur, s, done) == s || SearchPotential(p, RelaxAlong(p, cur, s, done).g) < SearchPotential(p, s.g)
    decreases |done|
  {
    if done != [] {
      AlongLowers(p, cur, s, done[..|done| - 1]);
      OneLowers(p, cur, done[|done| - 1], RelaxAlong(p, cur, s, done[..|done| - 1]));
    }
  }

  lemma {:induction false} AlongKeepsCovered(p: Problem, cur: Cell, s: State, done: seq<Cell>)
    requires CoveredExcept(p, s.heap, s.g, {cur})
    ensures var s' := RelaxAlong(p, cur, s, done); CoveredExcept(p, s'.heap, s'.g, {cur})
    decreases |done|
  {
    if done != [] {
      AlongKeepsCovered(p, cur, s, done[..|done| - 1]);
      OneKeepsCovered(p, cur, done[|done| - 1], RelaxAlong(p, cur, s, done[..|done| - 1]));
    }
  }

  /** After the passes for `done`, each non-obstacle cell of `done` next to `cur` is recorded at no more than through `cur`. */
  lemma {:induction false} AlongRelaxes(p: Problem, cur: Cell, s: State, done: seq<Cell>)
    requires cur in s.g
    ensures var s' := RelaxAlong(p, cur, s, done);
            && cur in s'.g
            && forall n :: n in done && IsValidCell(p.cols, p.rows, n) && Adjacent(cur, n) && n !in p.obstacles ==>
                 n in s'.g && s'.g[n] <= s'.g[cur] + Weight(p.weights, n)
    decreases |done|
  {
    if done != [] {
      var rest, last := done[..|done| - 1], done[|done| - 1];
      var s1 := RelaxAlong(p, cur, s, rest);
      AlongRelaxes(p, cur, s, rest);
      AlongMonotone(p, cur, s, rest);
      OneMonotone(p, cur, last, s1);
      if IsValidCell(p.cols, p.rows, last) && Adjacent(cur, last) && last !in p.obstacles {
        OneRelaxes(p, cur, last, s1);
      }
      assert forall n :: n in done ==> n in rest || n == last;
    }
  }

  /** The costs after relaxing the distinct cells of `done`: exactly the improvable ones among them change, to the cost through `cur`. */
  lemma {:induction false} AlongCosts(p: Problem, cur: Cell, s: State, done: seq<Cell>)
    requires cur in s.g
    requires Distinct(done)
    ensures var s' := RelaxAlong(p, cur, s, done);
            && (forall c :: c in s'.g <==> c in s.g || (c in done && Improves(p, s.g, cur, c)))
            && (forall c :: c in s'.g ==>
                  s'.g[c] == if c in done && Improves(p, s.g, cur, c) then s.g[cur] + Weight(p.weights, c) else s.g[c])
    decreases |done|
  {
    if done != [] {
      var rest, last := done[..|done| - 1], done[|done| - 1];
      AlongCosts(p, cur, s, rest);
      assert !Improves(p, s.g, cur, cur);
      assert forall c :: c in done <==> c in rest || c == last;
    }
  }

  /** The last cell of distinct `done` is improvable after the passes before it exactly when it was at the outset. */
  lemma LastImproves(p: Problem, cur: Cell, s: State, done: seq<Cell>)
    requires cur in s.g
    requires Distinct(done) && done != []
    ensures var s1 := RelaxAlong(p, cur, s, done[..|done| - 1]);
            && cur in s1.g && s1.g[cur] == s.g[cur]
            && (Improves(p, s1.g, cur, done[|done| - 1]) <==> Improves(p, s.g, cur, done[|done| - 1]))
  {
    var s1 := RelaxAlong(p, cur, s, done[..|done| - 1]);
    AlongCosts(p, cur, s, done[..|done| - 1]);
    assert !Improves(p, s.g, cur, cur);
    assert cur in s1.g && s1.g[cur] == s.g[cur];
  }

  /** The predecessors after relaxing the distinct cells of `done`: `cur` for exactly the improvable ones among them. */
  lemma {:induction false} AlongPredecessors(p: Problem, cur: Cell, s: State, done: seq<Cell>)
    requires cur in s.g && s.cameFrom.Keys == s.g.Keys
    requires Distinct(done)
    ensures var s' := RelaxAlong(p, cur, s, done);
            && s'.cameFrom.Keys == s'.g.Keys
            && (forall c :: c in s'.cameFrom ==>
                  if c in done && Improves(p, s.g, cur, c) then s'.cameFrom[c] == Some(cur)
                  else c in s.cameFrom && s'.cameFrom[c] == s.cameFrom[c])
    decreases |done|
  {
    if done != [] {
      var rest, last := done[..|done| - 1], done[|done| - 1];
      AlongPredecessors(p, cur, s, rest);
      LastImproves(p, cur, s, done);
      assert forall c :: c in done <==> c in rest || c == last;
    }
  }

  /** The heap after relaxing the distinct cells of `done`: the entries `Pushes` lists are added. */
  lemma {:induction false} AlongPushes(p: Problem, cur: Cell, s: State, done: seq<Cell>)
    requires cur in s.g
    requires Distinct(done)
    ensures RelaxAlong(p, cur, s, done).heap == s.heap + Pushes(p, s.g, cur, done)
    decreases |done|
  {
    if done != [] {
      var rest := done[..|done| - 1];
      AlongPushes(p, cur, s, rest);
      LastImproves(p, cur, s, done);
    }
  }

  /** Expanding `cur` is what `RelaxedFrom` describes. */
  lemma ExpandMeaning(p: Problem, cur: Cell, s: State)
    requires cur in s.g && s.cameFrom.Keys == s.g.Keys
    ensures RelaxedFrom(p, cur, s, Expand(p, cur, s))
  {
    var ns := Neighbors(p.cols, p.rows, cur);
    NeighborsAreDistinct(p.cols, p.rows, cur);
    AlongCosts(p, cur, s, ns);
    AlongPredecessors(p, cur, s, ns);
    AlongPushes(p, cur, s, ns);
    forall c | Improves(p, s.g, cur, c)
      ensures c in ns
    {
      NeighborsComplete(p.cols, p.rows, cur, c);
    }
  }

  /** Expanding `cur` at last relaxes it. */
  lemma CloseCovered(p: Problem, heap: multiset<Entry>, g: map<Cell, int>, cur: Cell)
    requires CoveredExcept(p, heap, g, {cur})
    requires cur in g
    requires forall n :: (n in Neighbors(p.cols, p.rows, cur) && IsValidCell(p.cols, p.rows, n) && Adjacent(cur, n)
                          && n !in p.obstacles) ==> n in g && g[n] <= g[cur] + Weight(p.weights, n)
    ensures CoveredExcept(p, heap, g, {})
  {
    forall n | IsValidCell(p.cols, p.rows, n) && Adjacent(cur, n) && n !in p.obstacles
      ensures n in g && g[n] <= g[cur] + Weight(p.weights, n)
    {
      NeighborsComplete(p.cols, p.rows, cur, n);
    }
    assert Relaxed(p.cols, p.rows, p.obstacles, p.weights, g, cur);
  }

  /** Expanding `cur` keeps the invariant, relaxes `cur`, and lowers the potential unless it changes nothing. */
  lemma ExpandKeeps(p: Problem, cur: Cell, s: State)
    requires WeightsInRange(p.weights)
    requires cur in s.g
    requires Consistent(p, s)
    requires CoveredExcept(p, s.heap, s.g, {cur})
    ensures var s' := Expand(p, cur, s);
            && Consistent(p, s')
            && CoveredExcept(p, s'.heap, s'.g, {})
            && (s' == s || SearchPotential(p, s'.g) < SearchPotential(p, s.g))
  {
    var ns := Neighbors(p.cols, p.rows, cur);
    var s' := Expand(p, cur, s);
    AlongKeepsConsistent(p, cur, s, ns);
    AlongLowers(p, cur, s, ns);
    AlongKeepsCovered(p, cur, s, ns);
    AlongRelaxes(p, cur, s, ns);
    AlongMonotone(p, cur, s, ns);
    CloseCovered(p, s'.heap, s'.g, cur);
  }

  // ---------------------------------------------------------------------------------------------
  // The loop

  /** The loop state at the start satisfies the invariant. */
  lemma InitialState(p: Problem)
    ensures Consistent(p, Initial(p))
    ensures CoveredExcept(p, Initial(p).heap, Initial(p).g, {})
  {
  }

  /**
   * Popping `e` leaves every cell but `e`'s pending or relaxed, and `e`'s too when `e` was stale
   * (its cost to come is worse than the recorded one, so it is not the cell's pending entry).
   */
  lemma DropEntry(p: Problem, s: State, e: Entry)
    requires Consistent(p, s.(heap := s.heap + multiset{e}))
    requires CoveredExcept(p, s.heap + multiset{e}, s.g, {})
    ensures Consistent(p, s)
    ensures e.cell in s.g
    ensures CoveredExcept(p, s.heap, s.g, {e.cell})
    ensures e.g > s.g[e.cell] ==> CoveredExcept(p, s.heap, s.g, {})
  {
    assert forall x :: x in s.heap + multiset{e} && x != e ==> x in s.heap;
  }

  /**
   * The body of the loop over `get_neighbors(current)`: a non-obstacle neighbour whose recorded
   * cost the route through `current` beats gets that cost, a heap entry, and `current` as predecessor.
   */
  method RelaxNeighbor(p: Problem, current: Cell, neighbor: Cell,
                       heap: multiset<Entry>, cameFrom: CameFrom, g: map<Cell, int>)
    returns (heap': multiset<Entry>, cameFrom': CameFrom, g': map<Cell, int>)
    requires current in g && IsValidCell(p.cols, p.rows, neighbor) && Adjacent(current, neighbor)
    ensures State(heap', cameFrom', g') == RelaxOne(p, current, neighbor, State(heap, cameFrom, g))
  {
    heap', cameFrom', g' := heap, cameFrom, g;
    if neighbor !in p.obstacles {
      var cellWeight := Weight(p.weights, neighbor);
      var newCost := g[current] + cellWeight;
      if neighbor !in g || newCost < g[neighbor] {
        g' := g[neighbor := newCost];
        heap' := heap + multiset{EntryFor(p, neighbor, newCost)};
        cameFrom' := cameFrom[neighbor := Some(current)];
      }
    }
  }

  /** The loop over `get_neighbors(current)`. */
  method RelaxNeighbors(p: Problem, current: Cell, s: State) returns (s': State)
    requires current in s.g
    ensures s' == Expand(p, current, s)
  {
    var neighbors := GetNeighbors(p.cols, p.rows, current);
    var heap, cameFrom, g := s.heap, s.cameFrom, s.g;
    var i := 0;
    assert neighbors[..0] == [];
    while i < |neighbors|
      invariant 0 <= i <= |neighbors|
      invariant State(heap, cameFrom, g) == RelaxAlong(p, current, s, neighbors[..i])
      invariant current in g
    {
      assert neighbors[..i + 1][..i] == neighbors[..i];
      NeighborIsNear(p.cols, p.rows, current, neighbors[i]);
      heap, cameFrom, g := RelaxNeighbor(p, current, neighbors[i], heap, cameFrom, g);
      i := i + 1;
    }
    assert neighbors[..i] == neighbors;
    s' := State(heap, cameFrom, g);
  }

  /** A pending cell has an entry whose key is at most its recorded cost plus its heuristic. */
  lemma PendingEntry(p: Problem, heap: multiset<Entry>, g: map<Cell, int>, c: Cell) returns (e: Entry)
    requires Pending(p, heap, g, c)
    ensures e in heap && e.key <= g[c] + Heuristic(p, c)
  {
    e := if EntryFor(p, c, g[c]) in heap then EntryFor(p, c, g[c]) else StartEntry(p);
  }

  /** Along a walk to `end`, the cost up to a cell plus that cell's heuristic never exceeds the whole walk's cost. */
  lemma HeuristicAdmissible(p: Problem, q: seq<Cell>, j: nat)
    requires WeightsInRange(p.weights)
    requires IsPathFromTo(p.cols, p.rows, p.obstacles, q, p.start, p.end)
    requires j < |q|
    ensures PathCost(p.weights, q[..j + 1]) + Heuristic(p, q[j]) <= PathCost(p.weights, q)
  {
    var rest := q[j..];
    assert rest[0] == q[j] && rest[|rest| - 1] == p.end;
    assert IsPath(p.cols, p.rows, p.obstacles, rest);
    ManhattanAdmissible(p.cols, p.rows, p.obstacles, p.weights, rest);
    PathCostSplit(p.weights, q, j);
  }

  /**
   * When the entry of least key is for `end`, no walk to `end` is cheaper than `end`'s recorded
   * cost: a cheaper walk would pass a pending cell whose entry (its cost plus an admissible
   * heuristic) has a smaller key.
   */
  lemma FoundBeats(p: Problem, s: State, e: Entry, q: seq<Cell>)
    requires WeightsInRange(p.weights)
    requires Consistent(p, s)
    requires CoveredExcept(p, s.heap, s.g, {})
    requires IsMinimum(e, s.heap) && e.cell == p.end
    requires IsPathFromTo(p.cols, p.rows, p.obstacles, q, p.start, p.end)
    ensures p.end in s.g && s.g[p.end] <= PathCost(p.weights, q)
  {
    var pending := set c | c in s.g && Pending(p, s.heap, s.g, c);
    var j := ScanPath(p.cols, p.rows, p.obstacles, p.weights, s.g, pending, q);
    HeuristicAdmissible(p, q, j);
    if j == |q| - 1 {
      assert q[..j + 1] == q;
    } else if e != StartEntry(p) {
      assert e.g >= s.g[p.end] && e.key == e.g;
      var ey := PendingEntry(p, s.heap, s.g, q[j]);
      assert e.key <= ey.key;
    }
  }

  lemma FoundIsCheapest(p: Problem, s: State, e: Entry)
    requires WeightsInRange(p.weights)
    requires Consistent(p, s)
    requires CoveredExcept(p, s.heap, s.g, {})
    requires IsMinimum(e, s.heap) && e.cell == p.end
    ensures forall q :: IsPathFromTo(p.cols, p.rows, p.obstacles, q, p.start, p.end) ==>
              p.end in s.g && s.g[p.end] <= PathCost(p.weights, q)
  {
    forall q | IsPathFromTo(p.cols, p.rows, p.obstacles, q, p.start, p.end)
      ensures p.end in s.g && s.g[p.end] <= PathCost(p.weights, q)
    {
      FoundBeats(p, s, e, q);
    }
  }

  /** When the heap runs empty, every walk to `end` has led into the recorded cells at no less than the recorded cost. */
  lemma ExhaustedIsCheapest(p: Problem, s: State)
    requires Consistent(p, s)
    requires CoveredExcept(p, s.heap, s.g, {})
    requires s.heap == multiset{}
    ensures forall q :: IsPathFromTo(p.cols, p.rows, p.obstacles, q, p.start, p.end) ==>
              p.end in s.g && s.g[p.end] <= PathCost(p.weights, q)
  {
    forall q | IsPathFromTo(p.cols, p.rows, p.obstacles, q, p.start, p.end)
      ensures p.end in s.g && s.g[p.end] <= PathCost(p.weights, q)
    {
      var j := ScanPath(p.cols, p.rows, p.obstacles, p.weights, s.g, {}, q);
      assert q[..j + 1] == q;
    }
  }

  /**
   * What the search returns: an acyclic search tree that holds `end` exactly when `end` is
   * reachable, and whose path to `end` is then a cheapest walk.
   */
  lemma Conclude(p: Problem, s: State)
    requires WeightsInRange(p.weights)
    requires Consistent(p, s)
    requires forall q :: IsPathFromTo(p.cols, p.rows, p.obstacles, q, p.start, p.end) ==>
               p.end in s.g && s.g[p.end] <= PathCost(p.weights, q)
    ensures IsSearchTree(p.cols, p.rows, p.obstacles, p.start, s.cameFrom)
    ensures Acyclic(s.cameFrom)
    ensures p.end in s.cameFrom <==> Reachable(p.cols, p.rows, p.obstacles, p.start, p.end)
    ensures p.end in s.cameFrom ==> CheapestTreePath(p.cols, p.rows, p.obstacles, p.weights, s.cameFrom, p.start, p.end)
  {
    var cameFrom, g := s.cameFrom, s.g;
    var rank: map<Cell, nat> := map c | c in g :: if g[c] < 0 then 0 else g[c];
    forall n | n in cameFrom && cameFrom[n].Some? && cameFrom[n].value in cameFrom
      ensures rank[cameFrom[n].value] < rank[n]
    {
      WeightBounds(p.weights, n);
    }
    assert Ranked(cameFrom, rank);
    if p.end in cameFrom {
      KeysReachable(p.cols, p.rows, p.obstacles, p.start, cameFrom, p.end);
      forall a, q | IsTreePath(cameFrom, p.start, p.end, a) && IsPathFromTo(p.cols, p.rows, p.obstacles, q, p.start, p.end)
        ensures PathCost(p.weights, a) <= PathCost(p.weights, q)
      {
        TreePathCost(cameFrom, p.start, p.end, p.weights, g, a);
      }
    }
  }
}

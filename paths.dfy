/** Walks over the grid: 4-adjacent, obstacle-free sequences of cells, and what entering their cells costs. */
module Paths {
  import opened Grid

  /**
   * A walk that every search may take: each step goes to an in-bounds, non-obstacle cell one
   * axis-aligned step away. The first cell is where the walk starts and is not constrained.
   */
  predicate IsPath(cols: int, rows: int, obstacles: set<Cell>, p: seq<Cell>)
  {
    |p| >= 1 &&
    forall i :: 0 < i < |p| ==> IsValidCell(cols, rows, p[i]) && p[i] !in obstacles && Adjacent(p[i - 1], p[i])
  }

  predicate IsPathFromTo(cols: int, rows: int, obstacles: set<Cell>, p: seq<Cell>, a: Cell, b: Cell)
  {
    IsPath(cols, rows, obstacles, p) && p[0] == a && p[|p| - 1] == b
  }

  /** Some walk leads from `a` to `b` around the obstacles. */
  ghost predicate Reachable(cols: int, rows: int, obstacles: set<Cell>, a: Cell, b: Cell)
  {
    exists p :: IsPathFromTo(cols, rows, obstacles, p, a, b)
  }

  /** The total weight of the cells a walk enters (its first cell is not entered). */
  function PathCost(weights: map<Cell, int>, p: seq<Cell>): int
    decreases |p|
  {
    if |p| <= 1 then 0 else PathCost(weights, p[..|p| - 1]) + Weight(weights, p[|p| - 1])
  }

  /** Cutting a walk at its `j`-th cell splits its cost. */
  lemma {:induction false} PathCostSplit(weights: map<Cell, int>, p: seq<Cell>, j: nat)
    requires j < |p|
    ensures PathCost(weights, p) == PathCost(weights, p[..j + 1]) + PathCost(weights, p[j..])
    decreases |p|
  {
    if j == |p| - 1 {
      assert p[..j + 1] == p;
    } else {
      var q := p[..|p| - 1];
      PathCostSplit(weights, q, j);
      assert q[..j + 1] == p[..j + 1];
      assert p[j..][..|p[j..]| - 1] == q[j..];
    }
  }

  /** With weights of at least 1, a prefix of a walk costs no more than the walk. */
  lemma {:induction false} PathCostPrefix(weights: map<Cell, int>, p: seq<Cell>, k: nat)
    requires WeightsInRange(weights)
    requires 1 <= k <= |p|
    ensures PathCost(weights, p[..k]) <= PathCost(weights, p)
    decreases |p|
  {
    if k < |p| {
      var q := p[..|p| - 1];
      PathCostPrefix(weights, q, k);
      assert q[..k] == p[..k];
      WeightBounds(weights, p[|p| - 1]);
    } else {
      assert p[..k] == p;
    }
  }

  /** When every stored weight is 1 (or none is stored), every step costs 1, so a walk costs its number of steps. */
  lemma {:induction false} UnitPathCost(weights: map<Cell, int>, p: seq<Cell>)
    requires UnitWeights(weights)
    requires |p| >= 1
    ensures PathCost(weights, p) == |p| - 1
    decreases |p|
  {
    if |p| > 1 {
      UnitPathCost(weights, p[..|p| - 1]);
    }
  }

  /**
   * The A* heuristic is admissible: since every step costs at least 1, the Manhattan distance
   * between the ends of a walk never exceeds its cost.
   */
  lemma {:induction false} ManhattanAdmissible(cols: int, rows: int, obstacles: set<Cell>, weights: map<Cell, int>, p: seq<Cell>)
    requires WeightsInRange(weights)
    requires IsPath(cols, rows, obstacles, p)
    ensures Manhattan(p[0], p[|p| - 1]) <= PathCost(weights, p)
    decreases |p|
  {
    if |p| > 1 {
      var q := p[..|p| - 1];
      assert IsPath(cols, rows, obstacles, q);
      ManhattanAdmissible(cols, rows, obstacles, weights, q);
      ManhattanTriangle(p[0], q[|q| - 1], p[|p| - 1]);
      WeightBounds(weights, p[|p| - 1]);
    }
  }
}

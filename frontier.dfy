/**
 * Why a search that stops finds what it finds: every discovered cell is either still waiting on the
 * frontier or has been expanded, and a walk from `start` can leave the expanded region only through
 * a waiting cell.
 */
module Frontier {
  import opened Grid
  import opened Paths

  /**
   * `c` has been expanded at its recorded cost: every in-bounds, non-obstacle cell one step away
   * is discovered, at a cost no greater than `c`'s plus that cell's weight.
   */
  ghost predicate Relaxed(cols: int, rows: int, obstacles: set<Cell>, weights: map<Cell, int>, g: map<Cell, int>, c: Cell)
  {
    && c in g
    && forall n :: IsValidCell(cols, rows, n) && Adjacent(c, n) && n !in obstacles ==>
         n in g && g[n] <= g[c] + Weight(weights, n)
  }

  /**
   * Scanning a walk from `start`: either the whole walk lies in the expanded region and its last
   * cell is recorded at no more than the walk's cost, or the scan stops at a cell that is still
   * pending and is recorded at no more than the cost of the walk up to it.
   */
  lemma ScanPath(cols: int, rows: int, obstacles: set<Cell>, weights: map<Cell, int>, g: map<Cell, int>,
                 pending: set<Cell>, q: seq<Cell>)
    returns (j: nat)
    requires IsPath(cols, rows, obstacles, q)
    requires q[0] in g && g[q[0]] == 0
    requires forall c :: c in g ==> c in pending || Relaxed(cols, rows, obstacles, weights, g, c)
    ensures j < |q| && q[j] in g && g[q[j]] <= PathCost(weights, q[..j + 1])
    ensures j == |q| - 1 || q[j] in pending
  {
    assert q[..1] == [q[0]];
    j := ScanFrom(cols, rows, obstacles, weights, g, pending, q, 0);
  }

  lemma {:induction false} ScanFrom(cols: int, rows: int, obstacles: set<Cell>, weights: map<Cell, int>,
                                    g: map<Cell, int>, pending: set<Cell>, q: seq<Cell>, i: nat)
    returns (j: nat)
    requires IsPath(cols, rows, obstacles, q)
    requires i < |q| && q[i] in g && g[q[i]] <= PathCost(weights, q[..i + 1])
    requires forall c :: c in g ==> c in pending || Relaxed(cols, rows, obstacles, weights, g, c)
    ensures i <= j < |q| && q[j] in g && g[q[j]] <= PathCost(weights, q[..j + 1])
    ensures j == |q| - 1 || q[j] in pending
    decreases |q| - i
  {
    if i == |q| - 1 || q[i] in pending {
      j := i;
    } else {
      assert Relaxed(cols, rows, obstacles, weights, g, q[i]);
      assert q[..i + 2][..i + 1] == q[..i + 1];
      j := ScanFrom(cols, rows, obstacles, weights, g, pending, q, i + 1);
    }
  }

  /** Every in-bounds, non-obstacle cell one step away from `c` is among `keys`. */
  ghost predicate Expanded(cols: int, rows: int, obstacles: set<Cell>, keys: set<Cell>, c: Cell)
  {
    forall n :: IsValidCell(cols, rows, n) && Adjacent(c, n) && n !in obstacles ==> n in keys
  }

  /** A set of cells closed under expansion holds every cell a walk from one of its cells can reach. */
  lemma {:induction false} ClosedReach(cols: int, rows: int, obstacles: set<Cell>, keys: set<Cell>, q: seq<Cell>)
    requires IsPath(cols, rows, obstacles, q)
    requires q[0] in keys
    requires forall c :: c in keys ==> Expanded(cols, rows, obstacles, keys, c)
    ensures q[|q| - 1] in keys
    decreases |q|
  {
    if |q| > 1 {
      var q' := q[..|q| - 1];
      assert IsPath(cols, rows, obstacles, q');
      ClosedReach(cols, rows, obstacles, keys, q');
    }
  }
}

/**
 * Termination measures for the search loops. The grid is finite, so only finitely many cells can
 * be discovered, and with weights between 1 and 9 a recorded cost can only drop finitely often.
 */
module Measure {
  import opened Grid

  /** Every cell a search can record: `start` (never bounds-checked) and every in-bounds cell. */
  function Universe(cols: int, rows: int, start: Cell): seq<Cell>
  {
    [start] + AllCells(cols, rows)
  }

  lemma InUniverse(cols: int, rows: int, start: Cell, c: Cell)
    requires c == start || IsValidCell(cols, rows, c)
    ensures c in Universe(cols, rows, start)
  {
    if c != start {
      InAllCells(cols, rows, c);
    }
  }

  /** How many positions of `u` hold a cell that is not yet among `keys`. */
  function Unreached(u: seq<Cell>, keys: set<Cell>): (n: nat)
    ensures n <= |u|
    decreases |u|
  {
    if u == [] then 0 else Unreached(u[..|u| - 1], keys) + (if u[|u| - 1] in keys then 0 else 1)
  }

  /** Discovering cells never increases the count, and discovering one of `u` decreases it. */
  lemma {:induction false} UnreachedShrinks(u: seq<Cell>, keys: set<Cell>, keys': set<Cell>, c: Cell)
    requires keys <= keys'
    ensures Unreached(u, keys') <= Unreached(u, keys)
    ensures c in u && c !in keys && c in keys' ==> Unreached(u, keys') < Unreached(u, keys)
    decreases |u|
  {
    if u != [] {
      UnreachedShrinks(u[..|u| - 1], keys, keys', c);
      assert c in u ==> c in u[..|u| - 1] || c == u[|u| - 1];
    }
  }

  /** What one cell contributes to the potential: its recorded cost, or `big` while undiscovered. */
  function CellPotential(g: map<Cell, int>, big: nat, c: Cell): nat
  {
    if c !in g then big else if g[c] < 0 then 0 else g[c]
  }

  /** The sum of the cells' contributions over `u`. */
  function Potential(u: seq<Cell>, g: map<Cell, int>, big: nat): nat
    decreases |u|
  {
    if u == [] then 0 else Potential(u[..|u| - 1], g, big) + CellPotential(g, big, u[|u| - 1])
  }

  /** Lowering contributions lowers the potential, strictly if one cell of `u` strictly drops. */
  lemma {:induction false} PotentialShrinks(u: seq<Cell>, g: map<Cell, int>, g': map<Cell, int>, big: nat, c: Cell)
    requires forall x :: x in u ==> CellPotential(g', big, x) <= CellPotential(g, big, x)
    ensures Potential(u, g', big) <= Potential(u, g, big)
    ensures c in u && CellPotential(g', big, c) < CellPotential(g, big, c) ==> Potential(u, g', big) < Potential(u, g, big)
    decreases |u|
  {
    if u != [] {
      var u' := u[..|u| - 1];
      assert forall x :: x in u' ==> x in u;
      PotentialShrinks(u', g, g', big, c);
      assert c in u ==> c in u' || c == u[|u| - 1];
    }
  }
}

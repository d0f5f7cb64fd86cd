/** Grid geometry: cells, bounds, the four axis-aligned moves, the Manhattan distance and cell weights. */
module Grid {

  /** A grid cell, (column, row). */
  datatype Cell = Cell(x: int, y: int)

  /** The heaviest weight a cell can carry; a cell without a weight costs 1 to enter. */
  const MAX_WEIGHT: int := 9

  /** `is_valid_cell`: the cell lies inside a grid of `cols` columns and `rows` rows. */
  predicate IsValidCell(cols: int, rows: int, c: Cell)
  {
    0 <= c.x < cols && 0 <= c.y < rows
  }

  function Abs(n: int): nat
  {
    if n < 0 then -n else n
  }

  /** `manhattan_distance`. */
  function Manhattan(a: Cell, b: Cell): nat
  {
    Abs(a.x - b.x) + Abs(a.y - b.y)
  }

  /** Two cells one axis-aligned step apart. */
  predicate Adjacent(a: Cell, b: Cell)
  {
    Manhattan(a, b) == 1
  }

  lemma ManhattanSymmetric(a: Cell, b: Cell)
    ensures Manhattan(a, b) == Manhattan(b, a)
  {
  }

  lemma ManhattanZeroIffEqual(a: Cell, b: Cell)
    ensures Manhattan(a, b) == 0 <==> a == b
  {
  }

  lemma ManhattanTriangle(a: Cell, b: Cell, c: Cell)
    ensures Manhattan(a, c) <= Manhattan(a, b) + Manhattan(b, c)
  {
  }

  function KeepValid(cols: int, rows: int, n: Cell): seq<Cell>
  {
    if IsValidCell(cols, rows, n) then [n] else []
  }

  /** The moves of `get_neighbors`, in its order: right, left, down, up. */
  const DIRECTIONS: seq<(int, int)> := [(1, 0), (-1, 0), (0, 1), (0, -1)]

  function Shift(c: Cell, d: (int, int)): Cell
  {
    Cell(c.x + d.0, c.y + d.1)
  }

  /** The in-bounds cells among the first `k` moves of `DIRECTIONS`, in order. */
  function FirstNeighbors(cols: int, rows: int, c: Cell, k: int): seq<Cell>
  {
    var e, w := KeepValid(cols, rows, Cell(c.x + 1, c.y)), KeepValid(cols, rows, Cell(c.x - 1, c.y));
    var s, n := KeepValid(cols, rows, Cell(c.x, c.y + 1)), KeepValid(cols, rows, Cell(c.x, c.y - 1));
    if k <= 0 then [] else if k == 1 then e else if k == 2 then e + w else if k == 3 then e + w + s else e + w + s + n
  }

  /** The list `get_neighbors(c)` returns: the in-bounds cells among right, left, down and up. */
  function Neighbors(cols: int, rows: int, c: Cell): seq<Cell>
  {
    FirstNeighbors(cols, rows, c, |DIRECTIONS|)
  }

  /** Trying one more move appends its cell, if in bounds. */
  lemma FirstNeighborsStep(cols: int, rows: int, c: Cell, k: int)
    requires 0 <= k < |DIRECTIONS|
    ensures FirstNeighbors(cols, rows, c, k + 1) == FirstNeighbors(cols, rows, c, k) + KeepValid(cols, rows, Shift(c, DIRECTIONS[k]))
  {
    if k == 0 {
      assert [] + KeepValid(cols, rows, Cell(c.x + 1, c.y)) == KeepValid(cols, rows, Cell(c.x + 1, c.y));
    }
  }

  /** `get_neighbors`: try the four moves in order and keep the in-bounds cells. */
  method GetNeighbors(cols: int, rows: int, current: Cell) returns (neighbors: seq<Cell>)
    ensures neighbors == Neighbors(cols, rows, current)
  {
    var directions := DIRECTIONS;
    neighbors := [];
    var i := 0;
    while i < |directions|
      invariant 0 <= i <= |directions|
      invariant neighbors == FirstNeighbors(cols, rows, current, i)
    {
      var neighbor := Shift(current, directions[i]);
      FirstNeighborsStep(cols, rows, current, i);
      if IsValidCell(cols, rows, neighbor) {
        neighbors := neighbors + [neighbor];
      }
      i := i + 1;
    }
  }

  /** No element occurs twice. */
  predicate NoDuplicates<T(==)>(s: seq<T>)
  {
    forall i, j :: 0 <= i < j < |s| ==> s[i] != s[j]
  }

  lemma NoDuplicatesConcat<T>(a: seq<T>, b: seq<T>)
    requires NoDuplicates(a) && NoDuplicates(b)
    requires forall x :: x in a ==> x !in b
    ensures NoDuplicates(a + b)
  {
    forall i, j | 0 <= i < j < |a + b|
      ensures (a + b)[i] != (a + b)[j]
    {
      if j >= |a| && i < |a| {
        assert (a + b)[i] in a && (a + b)[j] in b;
      }
    }
  }

  /** Every neighbour is in bounds and one step away, so it is not `c` itself. */
  lemma NeighborsNear(cols: int, rows: int, c: Cell)
    ensures forall n :: n in Neighbors(cols, rows, c) ==> IsValidCell(cols, rows, n) && Adjacent(c, n) && n != c
  {
    var e, w := KeepValid(cols, rows, Cell(c.x + 1, c.y)), KeepValid(cols, rows, Cell(c.x - 1, c.y));
    var s, n := KeepValid(cols, rows, Cell(c.x, c.y + 1)), KeepValid(cols, rows, Cell(c.x, c.y - 1));
    assert forall m :: m in Neighbors(cols, rows, c) ==> m in e || m in w || m in s || m in n;
  }

  lemma InKeepValid(cols: int, rows: int, n: Cell)
    ensures |KeepValid(cols, rows, n)| <= 1
    ensures NoDuplicates(KeepValid(cols, rows, n))
    ensures forall m :: m in KeepValid(cols, rows, n) ==> m == n
  {
  }

  /** Keeping the in-bounds ones among four different cells gives at most four cells, none repeated. */
  lemma FourDistinct(cols: int, rows: int, a: Cell, b: Cell, c: Cell, d: Cell)
    requires a != b && a != c && a != d && b != c && b != d && c != d
    ensures var s := KeepValid(cols, rows, a) + KeepValid(cols, rows, b) + KeepValid(cols, rows, c) + KeepValid(cols, rows, d);
            |s| <= 4 && NoDuplicates(s)
  {
    var ka, kb, kc, kd := KeepValid(cols, rows, a), KeepValid(cols, rows, b), KeepValid(cols, rows, c), KeepValid(cols, rows, d);
    InKeepValid(cols, rows, a);
    InKeepValid(cols, rows, b);
    InKeepValid(cols, rows, c);
    InKeepValid(cols, rows, d);
    NoDuplicatesConcat(ka, kb);
    assert forall m :: m in ka + kb ==> m == a || m == b;
    NoDuplicatesConcat(ka + kb, kc);
    assert forall m :: m in ka + kb + kc ==> m == a || m == b || m == c;
    NoDuplicatesConcat(ka + kb + kc, kd);
  }

  /** At most four neighbours, none repeated. */
  lemma NeighborsDistinct(cols: int, rows: int, c: Cell)
    ensures |Neighbors(cols, rows, c)| <= 4
    ensures NoDuplicates(Neighbors(cols, rows, c))
  {
    FourDistinct(cols, rows, Cell(c.x + 1, c.y), Cell(c.x - 1, c.y), Cell(c.x, c.y + 1), Cell(c.x, c.y - 1));
  }

  /** One neighbour: in bounds, one step away, and not `c` itself. */
  lemma NeighborIsNear(cols: int, rows: int, c: Cell, n: Cell)
    requires n in Neighbors(cols, rows, c)
    ensures IsValidCell(cols, rows, n) && Adjacent(c, n) && n != c
  {
    NeighborsNear(cols, rows, c);
  }

  /**
   * No element occurs twice, stated element by element from the back. This is `NoDuplicates` in the
   * shape of the step functions, which consume a sequence from its last element, so that their
   * inductions can peel off one element at a time; `NoDuplicatesDistinct` bridges the two.
   */
  predicate Distinct<T(==)>(s: seq<T>)
    decreases |s|
  {
    |s| == 0 || (s[|s| - 1] !in s[..|s| - 1] && Distinct(s[..|s| - 1]))
  }

  lemma {:induction false} NoDuplicatesDistinct<T>(s: seq<T>)
    requires NoDuplicates(s)
    ensures Distinct(s)
    decreases |s|
  {
    if |s| > 0 {
      var r := s[..|s| - 1];
      assert NoDuplicates(r) by {
        forall i, j | 0 <= i < j < |r|
          ensures r[i] != r[j]
        {
          assert r[i] == s[i] && r[j] == s[j];
        }
      }
      NoDuplicatesDistinct(r);
    }
  }

  /** The neighbour list repeats no cell. */
  lemma NeighborsAreDistinct(cols: int, rows: int, c: Cell)
    ensures Distinct(Neighbors(cols, rows, c))
  {
    NeighborsDistinct(cols, rows, c);
    NoDuplicatesDistinct(Neighbors(cols, rows, c));
  }

  /** Every in-bounds cell one step away is a neighbour. */
  lemma NeighborsComplete(cols: int, rows: int, c: Cell, n: Cell)
    requires IsValidCell(cols, rows, n) && Adjacent(c, n)
    ensures n in Neighbors(cols, rows, c)
  {
    if n.x == c.x + 1 {
      assert n == Cell(c.x + 1, c.y);
    } else if n.x == c.x - 1 {
      assert n == Cell(c.x - 1, c.y);
    } else if n.y == c.y + 1 {
      assert n == Cell(c.x, c.y + 1);
    } else {
      assert n == Cell(c.x, c.y - 1);
    }
  }

  /** `weights.get(c, 1)`: the cost of entering `c`. */
  function Weight(weights: map<Cell, int>, c: Cell): int
  {
    if c in weights then weights[c] else 1
  }

  /** The range the grid editor keeps every stored weight in. */
  predicate WeightsInRange(weights: map<Cell, int>)
  {
    forall c :: c in weights ==> 1 <= weights[c] <= MAX_WEIGHT
  }

  /** Every stored weight is 1, so every cell costs 1 to enter, as on a grid without weights. */
  predicate UnitWeights(weights: map<Cell, int>)
  {
    forall c :: c in weights ==> weights[c] == 1
  }

  lemma WeightBounds(weights: map<Cell, int>, c: Cell)
    requires WeightsInRange(weights)
    ensures 1 <= Weight(weights, c) <= MAX_WEIGHT
  {
  }

  /** The cells of row `y` with column below `cols`. */
  function RowCells(cols: int, y: int): seq<Cell>
    decreases cols
  {
    if cols <= 0 then [] else RowCells(cols - 1, y) + [Cell(cols - 1, y)]
  }

  /** Every cell of the grid, row by row. */
  function AllCells(cols: int, rows: int): seq<Cell>
    decreases rows
  {
    if rows <= 0 then [] else AllCells(cols, rows - 1) + RowCells(cols, rows - 1)
  }

  lemma {:induction false} InRowCells(cols: int, c: Cell)
    requires 0 <= c.x < cols
    ensures c in RowCells(cols, c.y)
  {
    if c.x < cols - 1 {
      InRowCells(cols - 1, c);
    }
  }

  /** AllCells enumerates every in-bounds cell. */
  lemma {:induction false} InAllCells(cols: int, rows: int, c: Cell)
    requires IsValidCell(cols, rows, c)
    ensures c in AllCells(cols, rows)
  {
    if c.y == rows - 1 {
      InRowCells(cols, c);
    } else {
      InAllCells(cols, rows - 1, c);
    }
  }
}

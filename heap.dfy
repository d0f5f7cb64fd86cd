/**
 * The `heapq` priority queue, seen as a multiset of entries from which a pop removes some entry of
 * least key. Which of several least entries it removes is left open.
 */
module MinHeap {
  import opened Grid

  /**
   * A heap entry. `key` orders the heap; `g` is the cost to come recorded when the entry was
   * pushed. Dijkstra pushes `(cost, cell)`, which is `Entry(cost, cost, cell)`; A* pushes
   * `(f, g, cell)`, which is `Entry(f, g, cell)`.
   */
  datatype Entry = Entry(key: int, g: int, cell: Cell)

  predicate IsMinimum(e: Entry, heap: multiset<Entry>)
  {
    e in heap && forall x :: x in heap ==> e.key <= x.key
  }

  /** A non-empty heap has an entry of least key. */
  lemma {:induction false} MinimumExists(heap: multiset<Entry>) returns (m: Entry)
    requires |heap| > 0
    ensures IsMinimum(m, heap)
    decreases |heap|
  {
    var x :| x in heap;
    var rest := heap - multiset{x};
    if |rest| == 0 {
      assert heap == multiset{x};
      m := x;
    } else {
      var r := MinimumExists(rest);
      assert heap == rest + multiset{x};
      m := if r.key <= x.key then r else x;
    }
  }

  /** `heap[0]`, the entry `heappop` removes: some entry of least key. */
  method FindMin(heap: multiset<Entry>) returns (e: Entry)
    requires |heap| > 0
    ensures IsMinimum(e, heap)
  {
    var m := MinimumExists(heap);
    e :| IsMinimum(e, heap);
  }
}

/** The walk in `draw_path`: from `end`, follow `came_from` until it gives `None`, collecting the cells in between. */
module PathWalk {
  import opened Wrappers
  import opened Grid
  import opened PredecessorTree

  /** `came_from.get(c)`: `None` for a cell that is not a key. */
  function Get(cameFrom: CameFrom, c: Cell): Option<Cell>
  {
    if c in cameFrom then cameFrom[c] else None
  }

  /** The cells of `s` other than `start` and `end`, in order. */
  function Keep(s: seq<Cell>, start: Cell, end: Cell): seq<Cell>
    decreases |s|
  {
    if s == [] then []
    else Keep(s[..|s| - 1], start, end) + (if s[|s| - 1] != start && s[|s| - 1] != end then [s[|s| - 1]] else [])
  }

  function Reverse(s: seq<Cell>): seq<Cell>
  {
    seq(|s|, i requires 0 <= i < |s| => s[|s| - 1 - i])
  }

  /** Keeping the cells of a sequence whose ends are `end` and `start` and whose inside avoids both drops exactly the ends. */
  lemma {:induction false} KeepInside(s: seq<Cell>, start: Cell, end: Cell)
    requires |s| >= 1 && s[0] == end
    requires forall i :: 0 < i < |s| ==> s[i] != start && s[i] != end
    ensures Keep(s, start, end) == s[1..]
    decreases |s|
  {
    if |s| > 1 {
      KeepInside(s[..|s| - 1], start, end);
      assert s[..|s| - 1][1..] + [s[|s| - 1]] == s[1..];
    }
  }

  /** Reversing a sequence of at least two cells puts its last first and its first last. */
  lemma ReverseEnds(t: seq<Cell>)
    requires |t| >= 2
    ensures Reverse(t) == [t[|t| - 1]] + Reverse(t[1..|t| - 1]) + [t[0]]
  {
    var r := [t[|t| - 1]] + Reverse(t[1..|t| - 1]) + [t[0]];
    assert |r| == |t|;
    forall i | 0 <= i < |t|
      ensures r[i] == Reverse(t)[i]
    {
      if 0 < i < |t| - 1 {
        assert r[i] == Reverse(t[1..|t| - 1])[i - 1];
      }
    }
  }

  /** A trail of predecessor links from `end` to `start`, reversed, is the tree path to `end`. */
  lemma ReversedTrail(cameFrom: CameFrom, start: Cell, end: Cell, trail: seq<Cell>)
    requires start in cameFrom
    requires |trail| >= 1 && trail[0] == end && trail[|trail| - 1] == start
    requires forall i :: 0 <= i < |trail| - 1 ==> trail[i] in cameFrom && cameFrom[trail[i]] == Some(trail[i + 1])
    ensures IsTreePath(cameFrom, start, end, Reverse(trail))
  {
    var n, p := |trail|, Reverse(trail);
    forall i | 0 < i < n
      ensures p[i] in cameFrom && cameFrom[p[i]] == Some(p[i - 1])
    {
      assert p[i] == trail[n - 1 - i] && p[i - 1] == trail[n - 1 - i + 1];
    }
  }

  /** The walk's trail from `end` to `start`: reversed, the tree path; inside it, the kept cells. */
  lemma TrailIsTreePath(cameFrom: CameFrom, start: Cell, end: Cell, trail: seq<Cell>)
    requires start in cameFrom
    requires |trail| >= 2 && trail[0] == end && trail[|trail| - 1] == start
    requires forall i :: 0 <= i < |trail| - 1 ==> trail[i] in cameFrom && cameFrom[trail[i]] == Some(trail[i + 1])
    requires forall i :: 0 < i < |trail| - 1 ==> trail[i] != start && trail[i] != end
    requires end != start
    ensures IsTreePath(cameFrom, start, end, [start] + Reverse(Keep(trail, start, end)) + [end])
  {
    var n := |trail|;
    var inner := trail[..n - 1];
    assert Keep(trail, start, end) == trail[1..n - 1] by {
      KeepInside(inner, start, end);
      assert inner[1..] == trail[1..n - 1];
      assert Keep(trail, start, end) == Keep(inner, start, end);
    }
    ReversedTrail(cameFrom, start, end, trail);
    ReverseEnds(trail);
  }

  /**
   * The walk so far: `trail` lists the cells visited from `end` on, each the predecessor of the
   * one before, all below `end` in rank, and `current` is what `came_from` gives for the last.
   */
  ghost predicate Walking(cameFrom: CameFrom, start: Cell, end: Cell, rank: map<Cell, nat>, trail: seq<Cell>, current: Option<Cell>)
  {
    && (trail == [] <==> current == Some(end))
    && (trail != [] ==> trail[0] == end && current == Get(cameFrom, trail[|trail| - 1]))
    && (forall i :: 0 <= i < |trail| - 1 ==> trail[i] in cameFrom && cameFrom[trail[i]] == Some(trail[i + 1]))
    && (forall i :: 0 < i < |trail| ==> trail[i] in cameFrom && trail[i] in rank && end in rank && rank[trail[i]] < rank[end])
    && (current.Some? && trail != [] ==> current.value in cameFrom && current.value in rank && end in rank && rank[current.value] < rank[end])
    && (forall i :: 0 <= i < |trail| - 1 ==> trail[i] != start)
  }

  /** How far the walk may still go: one more than the rank of the current cell, while it is a key. */
  ghost function WalkMeasure(cameFrom: CameFrom, rank: map<Cell, nat>, current: Option<Cell>): nat
  {
    if current.Some? && current.value in cameFrom && current.value in rank then rank[current.value] + 2
    else if current.Some? then 1 else 0
  }

  /** One step of the walk keeps `Walking` and lowers the measure. */
  lemma WalkStep(cameFrom: CameFrom, start: Cell, end: Cell, rank: map<Cell, nat>, trail: seq<Cell>, c: Cell)
    requires Rooted(cameFrom, start) && Ranked(cameFrom, rank)
    requires Walking(cameFrom, start, end, rank, trail, Some(c))
    ensures Walking(cameFrom, start, end, rank, trail + [c], Get(cameFrom, c))
    ensures WalkMeasure(cameFrom, rank, Get(cameFrom, c)) < WalkMeasure(cameFrom, rank, Some(c))
    ensures Keep(trail + [c], start, end) == Keep(trail, start, end) + (if c != start && c != end then [c] else [])
  {
    assert (trail + [c])[..|trail|] == trail;
  }

  /**
   * The loop of `draw_path`. In an acyclic rooted tree, the walk from a key `end` reaches `start`
   * and `path_cells` is the tree path from `start` to `end` without its ends, listed from `end`
   * back, so no cell of the drawn path repeats; from a cell that is not a key, it collects nothing.
   */
  method TracePath(cameFrom: CameFrom, start: Cell, end: Cell) returns (pathCells: seq<Cell>)
    requires Rooted(cameFrom, start)
    requires Acyclic(cameFrom)
    ensures end !in cameFrom || end == start ==> pathCells == []
    ensures end in cameFrom && end != start ==> IsTreePath(cameFrom, start, end, [start] + Reverse(pathCells) + [end])
    ensures end in cameFrom && end != start ==> NoDuplicates([start] + Reverse(pathCells) + [end])
  {
    ghost var rank :| Ranked(cameFrom, rank);
    pathCells := [];
    var current: Option<Cell> := Some(end);
    ghost var trail: seq<Cell> := [];
    while current.Some?
      invariant Walking(cameFrom, start, end, rank, trail, current)
      invariant pathCells == Keep(trail, start, end)
      decreases WalkMeasure(cameFrom, rank, current)
    {
      var c := current.value;
      WalkStep(cameFrom, start, end, rank, trail, c);
      if c != start && c != end {
        pathCells := pathCells + [c];
      }
      trail := trail + [c];
      current := Get(cameFrom, c);
    }
    if end in cameFrom && end != start {
      assert trail[|trail| - 1] == start;
      TrailIsTreePath(cameFrom, start, end, trail);
      TreePathNoRepeat(cameFrom, start, end, [start] + Reverse(pathCells) + [end]);
    }
  }
}

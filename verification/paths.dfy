/** Walks through a maze grid: the reference notions the searches are
    measured against. A walk starts at the entrance, moves one unit along one
    axis per step and enters only open cells; the entrance itself is not
    required to be open, since no search inspects it. */
module Paths {
  import opened MazeBase

  function Last<T>(w: seq<T>): T
    requires |w| >= 1
  {
    w[|w| - 1]
  }

  /** `w` is a walk in `g` from `start`. */
  predicate IsWalk(g: Grid, start: Coords, w: seq<Coords>) {
    && |w| >= 1
    && w[0] == start
    && (forall k :: 1 <= k < |w| ==> Open(g, w[k]))
    && (forall k :: 1 <= k < |w| ==> Adjacent(w[k - 1], w[k]))
  }

  /** No cell occurs twice in `w`. */
  predicate Simple(w: seq<Coords>) {
    forall a, b :: 0 <= a < b < |w| ==> w[a] != w[b]
  }

  /** Some walk from `start` ends at `c`. */
  ghost predicate Reachable(g: Grid, start: Coords, c: Coords) {
    exists w :: IsWalk(g, start, w) && Last(w) == c
  }

  /** The cells of the last row a walk from `start` can end at; `start`
      itself counts when it lies in the last row. */
  ghost function ReachableExits(g: Grid, start: Coords): set<Coords>
    requires Rectangular(g)
  {
    set c | c in AllCells(g) && c.row == LastRow(g) && Reachable(g, start, c)
  }

  /** Every cell of a walk lies in the grid when the start does. */
  lemma WalkInGrid(g: Grid, start: Coords, w: seq<Coords>, k: int)
    requires Rectangular(g) && InGrid(g, start) && IsWalk(g, start, w) && 0 <= k < |w|
    ensures w[k] in AllCells(g)
  {
    InGridInAllCells(g, w[k]);
  }

  lemma ExtendWalk(g: Grid, start: Coords, w: seq<Coords>, c: Coords)
    requires IsWalk(g, start, w) && Open(g, c) && Adjacent(Last(w), c)
    ensures IsWalk(g, start, w + [c])
  {
  }

  /** One more step from a reachable cell reaches its open neighbour. */
  lemma ReachStep(g: Grid, start: Coords, a: Coords, b: Coords)
    requires Reachable(g, start, a) && Open(g, b) && Adjacent(a, b)
    ensures Reachable(g, start, b)
  {
    var w :| IsWalk(g, start, w) && Last(w) == a;
    ExtendWalk(g, start, w, b);
    assert Last(w + [b]) == b;
  }

  lemma StartReachable(g: Grid, start: Coords)
    ensures Reachable(g, start, start)
  {
    assert IsWalk(g, start, [start]);
  }

  /** `S` holds the open neighbour in every direction of each of its cells. */
  predicate Closed(g: Grid, S: set<Coords>) {
    forall c, d: nat :: c in S && d < |Deltas| && Open(g, Step(c, d)) ==> Step(c, d) in S
  }

  /** A set closed under steps that holds the start holds every walk's end:
      the completeness argument of a breadth-first search. */
  lemma {:induction false} ClosedHoldsWalks(g: Grid, start: Coords, S: set<Coords>, w: seq<Coords>)
    requires start in S && Closed(g, S) && IsWalk(g, start, w)
    ensures Last(w) in S
    decreases |w|
  {
    if |w| > 1 {
      var v := w[..|w| - 1];
      assert IsWalk(g, start, v);
      ClosedHoldsWalks(g, start, S, v);
      var d := DirTo(Last(v), Last(w));
      assert Adjacent(w[|w| - 2], w[|w| - 1]);
      assert Step(Last(v), d) == Last(w);
    }
  }

  /** A closed set holding the start holds every reachable cell. */
  lemma ClosedHoldsReachable(g: Grid, start: Coords, S: set<Coords>, c: Coords)
    requires start in S && Closed(g, S) && Reachable(g, start, c)
    ensures c in S
  {
    var w :| IsWalk(g, start, w) && Last(w) == c;
    ClosedHoldsWalks(g, start, S, w);
  }

  /** A route of the shortest-path search: a walk from `start` ending in the
      last row at a cell other than `start`. */
  predicate IsRoute(g: Grid, start: Coords, w: seq<Coords>) {
    IsWalk(g, start, w) && Last(w).row == LastRow(g) && Last(w) != start
  }

  /** No cell strictly between the ends of `w` lies in the last row. */
  predicate InteriorAvoidsLastRow(g: Grid, w: seq<Coords>) {
    forall m :: 0 < m < |w| - 1 ==> w[m].row != LastRow(g)
  }

  /** A path of the longest-path search: a simple walk from `start` that
      ends at its first cell in the last row. */
  predicate IsLeafPath(g: Grid, start: Coords, w: seq<Coords>) {
    && IsWalk(g, start, w) && Simple(w)
    && Last(w).row == LastRow(g)
    && forall m :: 0 <= m < |w| - 1 ==> w[m].row != LastRow(g)
  }
}

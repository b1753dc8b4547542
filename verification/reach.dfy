/** The validator's exit count: a breadth-first search from the entrance
    that counts the dequeued cells lying in the last row. */
module Reach {
  import opened MazeBase
  import opened Paths

  /** The queue holds each cell of `been` exactly once, inside the grid,
      and every one of them is reachable from `start`. */
  ghost predicate QueueMatches(g: Grid, start: Coords, q: seq<Coords>, been: set<Coords>)
    requires Rectangular(g)
  {
    && (forall c :: c in been <==> c in q)
    && Simple(q) && |been| == |q|
    && been <= AllCells(g)
    && (forall c :: c in been ==> Reachable(g, start, c))
  }

  /** The direction loop of the search: queue and mark every open, unvisited
      neighbour of `cur` in the order of `Deltas`. */
  method EnqueueNeighbours(g: Grid, ghost start: Coords, cur: Coords, q: seq<Coords>, been: set<Coords>)
    returns (q': seq<Coords>, been': set<Coords>)
    requires Rectangular(g) && QueueMatches(g, start, q, been) && cur in been
    ensures QueueMatches(g, start, q', been')
    ensures q <= q' && been <= been'
    ensures forall d: nat :: d < |Deltas| && Open(g, Step(cur, d)) ==> Step(cur, d) in been'
    ensures forall c :: c in been' && c !in been ==> Adjacent(cur, c) && Open(g, c)
  {
    var rows, cols := |g|, |g[0]|;
    q', been' := q, been;
    var j := 0;
    while j < |Deltas|
      invariant 0 <= j <= |Deltas|
      invariant QueueMatches(g, start, q', been')
      invariant q <= q' && been <= been'
      invariant forall d: nat :: d < j && Open(g, Step(cur, d)) ==> Step(cur, d) in been'
      invariant forall c :: c in been' && c !in been ==> Adjacent(cur, c) && Open(g, c)
    {
      var next := Step(cur, j);
      if 0 <= next.row < rows && 0 <= next.col < cols && !g[next.row][next.col] && next !in been' {
        StepIsAdjacent(cur, j);
        EnqueueOne(g, start, cur, q', been', next);
        q' := q' + [next];
        been' := been' + {next};
      }
      assert Open(g, next) ==> next in been' by {
        if Open(g, next) {
          assert |g[next.row]| == cols;
        }
      }
      j := j + 1;
    }
  }

  /** Queuing an open, unvisited neighbour of a visited cell keeps the
      queue and the visited set in step. */
  lemma EnqueueOne(g: Grid, start: Coords, cur: Coords, q: seq<Coords>, been: set<Coords>, next: Coords)
    requires Rectangular(g) && QueueMatches(g, start, q, been) && cur in been
    requires Adjacent(cur, next) && Open(g, next) && next !in been
    ensures QueueMatches(g, start, q + [next], been + {next})
  {
    ReachStep(g, start, cur, next);
    InGridInAllCells(g, next);
  }

  /** The search state after dequeuing `q[..i]`: each dequeued cell's open
      neighbours are visited, and `exits` is the set of dequeued last-row
      cells. */
  ghost predicate Scanned(g: Grid, start: Coords, q: seq<Coords>, been: set<Coords>, i: int, exits: set<Coords>)
    requires Rectangular(g)
  {
    && 0 <= i <= |q| && |q| >= 1 && q[0] == start
    && QueueMatches(g, start, q, been)
    && (forall k, d: nat :: 0 <= k < i && d < |Deltas| && Open(g, Step(q[k], d)) ==> Step(q[k], d) in been)
    && exits == set c | c in q[..i] && c.row == |g| - 1
  }

  /** Number of last-row cells reachable from `start`, the start included
      when it lies in the last row. Cells are marked visited when queued, so
      each is queued and counted at most once. */
  method CountReachableExits(g: Grid, start: Coords) returns (count: nat)
    requires Rectangular(g) && InGrid(g, start)
    ensures count == |ReachableExits(g, start)|
  {
    var q := [start];
    var been := {start};
    ghost var exits: set<Coords> := {};
    count := 0;
    InGridInAllCells(g, start);
    StartReachable(g, start);
    var i := 0;
    while i < |q|
      invariant Scanned(g, start, q, been, i, exits) && count == |exits|
      decreases |AllCells(g)| - i
    {
      SubsetSize(been, AllCells(g));
      q, been, exits, count := Dequeue(g, start, q, been, i, exits, count);
      i := i + 1;
    }
    assert q[..i] == q;
    ExitsCounted(g, start, q, been, exits);
  }

  /** One step of the search: dequeues `q[i]`, counts it when it lies in the
      last row, and queues its open unvisited neighbours. */
  method Dequeue(g: Grid, ghost start: Coords, q: seq<Coords>, been: set<Coords>, i: nat,
                 ghost exits: set<Coords>, count: nat)
    returns (q': seq<Coords>, been': set<Coords>, ghost exits': set<Coords>, count': nat)
    requires Rectangular(g) && Scanned(g, start, q, been, i, exits) && i < |q| && count == |exits|
    ensures Scanned(g, start, q', been', i + 1, exits') && count' == |exits'|
    ensures q <= q'
  {
    var cur := q[i];
    exits', count' := exits, count;
    if cur.row == |g| - 1 {
      assert cur !in exits;
      count' := count + 1;
      exits' := exits + {cur};
    }
    assert cur in q;
    q', been' := EnqueueNeighbours(g, start, cur, q, been);
    ScannedStep(g, start, q, been, i, exits, q', been', exits');
  }

  /** Dequeuing `q[i]` extends the scanned prefix by one cell once its
      neighbours are queued. */
  lemma ScannedStep(g: Grid, start: Coords, q: seq<Coords>, been: set<Coords>, i: nat, exits: set<Coords>,
                    q': seq<Coords>, been': set<Coords>, exits': set<Coords>)
    requires Rectangular(g) && Scanned(g, start, q, been, i, exits) && i < |q|
    requires QueueMatches(g, start, q', been') && q <= q' && been <= been'
    requires forall d: nat :: d < |Deltas| && Open(g, Step(q[i], d)) ==> Step(q[i], d) in been'
    requires exits' == if q[i].row == |g| - 1 then exits + {q[i]} else exits
    ensures Scanned(g, start, q', been', i + 1, exits')
  {
    assert q'[..i + 1] == q[..i] + [q[i]];
    forall k, d: nat | 0 <= k < i + 1 && d < |Deltas| && Open(g, Step(q'[k], d))
      ensures Step(q'[k], d) in been'
    {
      assert q'[k] == q[k];
    }
  }

  /** When the search ends, the visited set is closed under steps, so the
      last-row cells it queued are exactly the reachable ones. */
  lemma ExitsCounted(g: Grid, start: Coords, q: seq<Coords>, been: set<Coords>, exits: set<Coords>)
    requires Rectangular(g) && |q| >= 1 && q[0] == start
    requires QueueMatches(g, start, q, been)
    requires forall k, d: nat :: 0 <= k < |q| && d < |Deltas| && Open(g, Step(q[k], d)) ==> Step(q[k], d) in been
    requires exits == set c | c in q && c.row == |g| - 1
    ensures exits == ReachableExits(g, start)
  {
    assert Closed(g, been);
    assert q[0] in q;
    forall c | c in AllCells(g) && c.row == LastRow(g) && Reachable(g, start, c)
      ensures c in exits
    {
      ClosedHoldsReachable(g, start, been, c);
    }
  }
}

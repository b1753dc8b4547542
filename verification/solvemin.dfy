/** The shortest-path solver: a breadth-first search from the entrance that
    stops as soon as it queues a last-row cell, then follows the queue's
    back-links to rebuild the path. */
module MinSearch {
  import opened MazeBase
  import opened Paths

  /** A queue entry: a cell, the queue index of the entry it was reached
      from (-1 for the entrance), and the number of moves to reach it. */
  datatype QueueEntry = QueueEntry(cell: Coords, prev: int, len: int)

  /** Back-links point to earlier entries and lengths grow by one along them. */
  predicate Linked(q: seq<QueueEntry>) {
    && |q| >= 1 && q[0].prev == -1 && q[0].len == 0
    && forall j {:trigger q[j].prev} :: 1 <= j < |q| ==> 0 <= q[j].prev < j && q[j].len == q[q[j].prev].len + 1
  }

  /** The queue starts at the entrance and every later entry is an open
      neighbour of the entry it links back to. */
  predicate WellLinked(g: Grid, start: Coords, q: seq<QueueEntry>) {
    && Linked(q) && q[0].cell == start
    && forall j :: 1 <= j < |q| ==> Open(g, q[j].cell) && Adjacent(q[q[j].prev].cell, q[j].cell)
  }

  /** The cells met following back-links from entry `j` to the entrance,
      listed from the entrance. */
  function PathTo(q: seq<QueueEntry>, j: int): (p: seq<Coords>)
    requires Linked(q) && 0 <= j < |q|
    ensures |p| >= 1 && |p| == q[j].len + 1 && Last(p) == q[j].cell
    decreases j
  {
    if j == 0 then [q[0].cell] else PathTo(q, q[j].prev) + [q[j].cell]
  }

  /** `pos` maps each queued cell to its queue index, and `been` is the set
      of queued cells: every cell is queued at most once. */
  ghost predicate Indexed(q: seq<QueueEntry>, been: set<Coords>, pos: map<Coords, int>) {
    && been == pos.Keys
    && (forall j :: 0 <= j < |q| ==> q[j].cell in pos && pos[q[j].cell] == j)
    && PointsIntoQueue(q, pos)
  }

  /** Every index in `pos` is the queue index of its cell. */
  ghost predicate PointsIntoQueue(q: seq<QueueEntry>, pos: map<Coords, int>) {
    forall c {:trigger pos[c]} :: c in pos ==> 0 <= pos[c] < |q| && q[pos[c]].cell == c
  }

  /** Lengths never decrease along the queue. */
  predicate LengthsSorted(q: seq<QueueEntry>) {
    forall a, b :: 0 <= a < b < |q| ==> q[a].len <= q[b].len
  }

  /** The queue invariant of the search, independent of its progress. */
  ghost predicate Queue(g: Grid, start: Coords, q: seq<QueueEntry>, been: set<Coords>, pos: map<Coords, int>) {
    && Rectangular(g)
    && WellLinked(g, start, q)
    && Indexed(q, been, pos)
    && LengthsSorted(q)
    && been <= AllCells(g) && |been| == |q|
  }

  /** Entry `i` is being expanded: nothing queued is more than one move
      longer than it. */
  predicate Frontier(q: seq<QueueEntry>, i: int) {
    0 <= i < |q| && forall b :: 0 <= b < |q| ==> q[b].len <= q[i].len + 1
  }

  /** The entries before `upto` have been expanded: each open neighbour of
      theirs is queued, at most one move longer. */
  ghost predicate Expanded(g: Grid, q: seq<QueueEntry>, pos: map<Coords, int>, upto: int) {
    forall k: nat, d: nat :: k < upto && k < |q| && d < |Deltas| && Open(g, Step(q[k].cell, d)) ==>
      && Step(q[k].cell, d) in pos
      && 0 <= pos[Step(q[k].cell, d)] < |q|
      && q[pos[Step(q[k].cell, d)]].len <= q[k].len + 1
  }

  /** The first `d` directions of entry `k` have been tried: each open
      neighbour in them is queued, at most one move longer. */
  ghost predicate PartlyExpanded(g: Grid, q: seq<QueueEntry>, pos: map<Coords, int>, k: int, d: int)
    requires 0 <= k < |q|
  {
    forall e: nat :: e < d && e < |Deltas| && Open(g, Step(q[k].cell, e)) ==>
      && Step(q[k].cell, e) in pos
      && 0 <= pos[Step(q[k].cell, e)] < |q|
      && q[pos[Step(q[k].cell, e)]].len <= q[k].len + 1
  }

  /** No entry from 1 up to `upto` lies in the last row. */
  predicate NoExitBefore(g: Grid, q: seq<QueueEntry>, upto: int) {
    forall j :: 1 <= j < upto && j < |q| ==> q[j].cell.row != LastRow(g)
  }

  /** Queuing the open, unvisited neighbour `c` of the entry being expanded
      keeps the queue invariant. */
  lemma Enqueue(g: Grid, start: Coords, q: seq<QueueEntry>, been: set<Coords>, pos: map<Coords, int>, i: int, c: Coords)
    requires Queue(g, start, q, been, pos) && Frontier(q, i) && Expanded(g, q, pos, i)
    requires Open(g, c) && c !in been && Adjacent(q[i].cell, c)
    ensures var q2 := q + [QueueEntry(c, i, q[i].len + 1)];
            var pos2 := pos[c := |q|];
            && Queue(g, start, q2, been + {c}, pos2) && Frontier(q2, i) && Expanded(g, q2, pos2, i)
  {
    var q2 := q + [QueueEntry(c, i, q[i].len + 1)];
    var pos2 := pos[c := |q|];
    EnqueueLinks(g, start, q, i, c);
    EnqueueIndexed(q, been, pos, i, c);
    assert c !in pos;
    InGridInAllCells(g, c);
    assert been + {c} <= AllCells(g) && |been + {c}| == |q2|;
    EnqueueExpanded(g, q, pos, i, c);
  }

  lemma EnqueueLinks(g: Grid, start: Coords, q: seq<QueueEntry>, i: int, c: Coords)
    requires WellLinked(g, start, q) && LengthsSorted(q) && Frontier(q, i)
    requires Open(g, c) && Adjacent(q[i].cell, c)
    ensures var q2 := q + [QueueEntry(c, i, q[i].len + 1)];
            WellLinked(g, start, q2) && LengthsSorted(q2) && Frontier(q2, i)
  {
    var q2 := q + [QueueEntry(c, i, q[i].len + 1)];
    assert forall j :: 0 <= j < |q| ==> q2[j] == q[j];
    assert Linked(q2) by {
      forall j | 1 <= j < |q2| ensures 0 <= q2[j].prev < j && q2[j].len == q2[q2[j].prev].len + 1 {
        if j < |q| {
          assert q2[q[j].prev] == q[q[j].prev];
        }
      }
    }
    forall j | 1 <= j < |q2| ensures Open(g, q2[j].cell) && Adjacent(q2[q2[j].prev].cell, q2[j].cell) {
      if j < |q| {
        assert q2[q[j].prev] == q[q[j].prev];
      }
    }
    forall a, b | 0 <= a < b < |q2| ensures q2[a].len <= q2[b].len {
      if b == |q| {
        assert q2[a].len <= q[i].len + 1;
      }
    }
  }

  lemma EnqueueIndexed(q: seq<QueueEntry>, been: set<Coords>, pos: map<Coords, int>, i: int, c: Coords)
    requires Indexed(q, been, pos) && c !in been && 0 <= i < |q|
    ensures Indexed(q + [QueueEntry(c, i, q[i].len + 1)], been + {c}, pos[c := |q|])
  {
    var q2 := q + [QueueEntry(c, i, q[i].len + 1)];
    assert forall j :: 0 <= j < |q| ==> q2[j] == q[j];
  }

  lemma EnqueueExpanded(g: Grid, q: seq<QueueEntry>, pos: map<Coords, int>, i: int, c: Coords)
    requires Expanded(g, q, pos, i) && c !in pos && 0 <= i < |q|
    ensures Expanded(g, q + [QueueEntry(c, i, q[i].len + 1)], pos[c := |q|], i)
  {
    var q2 := q + [QueueEntry(c, i, q[i].len + 1)];
    assert forall j :: 0 <= j < |q| ==> q2[j] == q[j];
  }

  /** The effect of queuing the neighbour of entry `i` in direction `d` on
      the progress of the expansion. */
  lemma EnqueueStep(g: Grid, start: Coords, q: seq<QueueEntry>, been: set<Coords>, pos: map<Coords, int>, i: int, d: nat, c: Coords)
    requires Queue(g, start, q, been, pos) && Frontier(q, i) && Expanded(g, q, pos, i)
    requires PartlyExpanded(g, q, pos, i, d) && NoExitBefore(g, q, |q|)
    requires d < |Deltas| && c == Step(q[i].cell, d) && Open(g, c) && c !in been
    ensures var q2 := q + [QueueEntry(c, i, q[i].len + 1)];
            var pos2 := pos[c := |q|];
            && Queue(g, start, q2, been + {c}, pos2) && Frontier(q2, i) && Expanded(g, q2, pos2, i)
            && PartlyExpanded(g, q2, pos2, i, d + 1) && NoExitBefore(g, q2, |q2| - 1)
            && (c.row != LastRow(g) ==> NoExitBefore(g, q2, |q2|))
  {
    StepIsAdjacent(q[i].cell, d);
    Enqueue(g, start, q, been, pos, i, c);
    var q2 := q + [QueueEntry(c, i, q[i].len + 1)];
    var pos2 := pos[c := |q|];
    assert forall j :: 0 <= j < |q| ==> q2[j] == q[j];
    assert c !in pos;
  }

  /** Trying direction `d` of entry `i` when its neighbour there is already
      queued or not open. */
  lemma SkipStep(g: Grid, start: Coords, q: seq<QueueEntry>, been: set<Coords>, pos: map<Coords, int>, i: int, d: nat)
    requires Queue(g, start, q, been, pos) && Frontier(q, i) && PartlyExpanded(g, q, pos, i, d)
    requires d < |Deltas| && (Open(g, Step(q[i].cell, d)) ==> Step(q[i].cell, d) in been)
    ensures PartlyExpanded(g, q, pos, i, d + 1)
  {
  }

  /** Trying all four directions of entry `i` completes its expansion. */
  lemma FullyExpanded(g: Grid, q: seq<QueueEntry>, pos: map<Coords, int>, i: int)
    requires 0 <= i < |q| && Expanded(g, q, pos, i) && PartlyExpanded(g, q, pos, i, |Deltas|)
    ensures Expanded(g, q, pos, i + 1)
  {
  }

  /** What the completeness argument uses of the search state while entry
      `i` is expanded: the entrance is entry 0 with length 0, `pos` points
      into the queue, no later entry is shorter than entry `i`, and the
      entries before `i` are expanded. */
  ghost predicate SearchedUpTo(g: Grid, start: Coords, q: seq<QueueEntry>, pos: map<Coords, int>, i: int) {
    && 0 <= i < |q| && q[0].cell == start && q[0].len == 0
    && start in pos && pos[start] == 0
    && PointsIntoQueue(q, pos)
    && (forall b :: i <= b < |q| ==> q[i].len <= q[b].len)
    && Expanded(g, q, pos, i)
  }

  lemma QueueSearched(g: Grid, start: Coords, q: seq<QueueEntry>, been: set<Coords>, pos: map<Coords, int>, i: int)
    requires Queue(g, start, q, been, pos) && Frontier(q, i) && Expanded(g, q, pos, i)
    ensures SearchedUpTo(g, start, q, pos, i)
  {
    assert q[0].cell in pos;
  }

  /** Every walk no longer than the entry being expanded ends at a queued
      cell whose recorded length is at most the walk's. */
  lemma {:induction false} Covered(g: Grid, start: Coords, q: seq<QueueEntry>, pos: map<Coords, int>, i: int, v: seq<Coords>)
    requires SearchedUpTo(g, start, q, pos, i) && IsWalk(g, start, v)
    ensures |v| - 1 <= q[i].len ==> Last(v) in pos && q[pos[Last(v)]].len <= |v| - 1
    decreases |v|
  {
    if |v| > 1 {
      var u := v[..|v| - 1];
      assert IsWalk(g, start, u);
      Covered(g, start, q, pos, i, u);
      if |v| - 1 <= q[i].len {
        var pu := pos[Last(u)];
        assert pu < i;
        var d := DirTo(Last(u), Last(v));
        assert Adjacent(v[|v| - 2], v[|v| - 1]);
        assert Step(q[pu].cell, d) == Last(v);
      }
    }
  }

  /** When the search queues its first last-row cell while expanding entry
      `i`, no route is shorter than the one it found. */
  lemma NoShorterRoute(g: Grid, start: Coords, q: seq<QueueEntry>, pos: map<Coords, int>, i: int)
    requires SearchedUpTo(g, start, q, pos, i)
    requires NoExitBefore(g, q, |q| - 1) && q[|q| - 1].len == q[i].len + 1
    ensures forall w :: IsRoute(g, start, w) ==> |w| >= q[|q| - 1].len + 1
  {
    forall w | IsRoute(g, start, w) ensures |w| >= q[|q| - 1].len + 1 {
      RouteNotShorter(g, start, q, pos, i, w);
    }
  }

  /** The exit the expansion of entry `i` just queued ends a shortest
      route. */
  lemma FirstExitShortest(g: Grid, start: Coords, q: seq<QueueEntry>, been: set<Coords>, pos: map<Coords, int>, i: int)
    requires Queue(g, start, q, been, pos) && Frontier(q, i) && Expanded(g, q, pos, i)
    requires NoExitBefore(g, q, |q| - 1) && Last(q).len == q[i].len + 1
    ensures forall w :: IsRoute(g, start, w) ==> |w| >= q[|q| - 1].len + 1
  {
    QueueSearched(g, start, q, been, pos, i);
    NoShorterRoute(g, start, q, pos, i);
  }

  /** One route against the one found: a shorter route would end at a
      last-row cell queued before the exit. */
  lemma RouteNotShorter(g: Grid, start: Coords, q: seq<QueueEntry>, pos: map<Coords, int>, i: int, w: seq<Coords>)
    requires SearchedUpTo(g, start, q, pos, i)
    requires NoExitBefore(g, q, |q| - 1) && q[|q| - 1].len == q[i].len + 1
    requires IsRoute(g, start, w)
    ensures |w| >= q[|q| - 1].len + 1
  {
    Covered(g, start, q, pos, i, w);
    QueuedLastRowIsExit(g, start, q, pos, Last(w));
  }

  /** Before the exit, only the entrance may lie in the last row. */
  lemma QueuedLastRowIsExit(g: Grid, start: Coords, q: seq<QueueEntry>, pos: map<Coords, int>, c: Coords)
    requires PointsIntoQueue(q, pos) && |q| >= 1 && q[0].cell == start && NoExitBefore(g, q, |q| - 1)
    requires c.row == LastRow(g) && c != start
    ensures c in pos ==> pos[c] == |q| - 1
  {
    if c in pos {
      assert q[pos[c]].cell == c;
    }
  }

  /** With every entry expanded and none past the entrance in the last row,
      no route exists. */
  lemma NoRoute(g: Grid, start: Coords, q: seq<QueueEntry>, been: set<Coords>, pos: map<Coords, int>)
    requires Queue(g, start, q, been, pos) && Expanded(g, q, pos, |q|) && NoExitBefore(g, q, |q|)
    ensures forall w :: !IsRoute(g, start, w)
  {
    assert q[0].cell == start;
    assert Closed(g, been) by {
      forall c, d: nat | c in been && d < |Deltas| && Open(g, Step(c, d))
        ensures Step(c, d) in been
      {
        assert q[pos[c]].cell == c;
      }
    }
    forall w
      ensures !IsRoute(g, start, w)
    {
      if IsWalk(g, start, w) {
        ClosedHoldsWalks(g, start, been, w);
        assert q[pos[Last(w)]].cell == Last(w);
      }
    }
  }

  /** The path rebuilt from entry `j` is a walk. */
  lemma {:induction false} PathIsWalk(g: Grid, start: Coords, q: seq<QueueEntry>, j: int)
    requires WellLinked(g, start, q) && 0 <= j < |q|
    ensures IsWalk(g, start, PathTo(q, j))
    decreases j
  {
    if j > 0 {
      PathIsWalk(g, start, q, q[j].prev);
      ExtendWalk(g, start, PathTo(q, q[j].prev), q[j].cell);
    }
  }

  /** The `m`-th cell of the path rebuilt from entry `j` is the cell of an
      entry at or before `j` with length `m`. */
  lemma {:induction false} PathEntries(q: seq<QueueEntry>, j: int) returns (idx: seq<int>)
    requires Linked(q) && 0 <= j < |q|
    ensures |idx| == |PathTo(q, j)|
    ensures forall m :: 0 <= m < |idx| ==> 0 <= idx[m] <= j && q[idx[m]].len == m && PathTo(q, j)[m] == q[idx[m]].cell
    decreases j
  {
    if j == 0 {
      idx := [0];
    } else {
      var before := PathEntries(q, q[j].prev);
      idx := before + [j];
      assert forall m :: 0 <= m < |before| ==> PathTo(q, j)[m] == PathTo(q, q[j].prev)[m];
    }
  }

  /** The path rebuilt from a last-row entry `j` is a simple route whose
      interior stays out of the last row. */
  lemma PathIsRoute(g: Grid, start: Coords, q: seq<QueueEntry>, been: set<Coords>, pos: map<Coords, int>, j: int)
    requires Queue(g, start, q, been, pos) && 1 <= j < |q| && NoExitBefore(g, q, j)
    requires q[j].cell.row == LastRow(g)
    ensures var p := PathTo(q, j);
            IsRoute(g, start, p) && Simple(p) && InteriorAvoidsLastRow(g, p)
  {
    var p := PathTo(q, j);
    PathIsWalk(g, start, q, j);
    var idx := PathEntries(q, j);
    assert pos[q[j].cell] == j && pos[q[0].cell] == 0;
    forall a, b | 0 <= a < b < |p| ensures p[a] != p[b] {
      assert pos[q[idx[a]].cell] == idx[a] && pos[q[idx[b]].cell] == idx[b];
    }
    forall m | 0 < m < |p| - 1 ensures p[m].row != LastRow(g) {
      assert idx[m] != 0 && idx[m] != j;
    }
  }

  /** One direction of the expansion of entry `i`: queue the neighbour in
      direction `d` when it is open and not yet visited. */
  method TryDirection(g: Grid, ghost start: Coords, q: seq<QueueEntry>, been: set<Coords>, ghost pos: map<Coords, int>, i: int, d: nat)
    returns (q': seq<QueueEntry>, been': set<Coords>, ghost pos': map<Coords, int>, added: bool)
    requires Queue(g, start, q, been, pos) && Frontier(q, i) && Expanded(g, q, pos, i)
    requires PartlyExpanded(g, q, pos, i, d) && NoExitBefore(g, q, |q|) && d < |Deltas|
    ensures Queue(g, start, q', been', pos') && Frontier(q', i) && Expanded(g, q', pos', i)
    ensures PartlyExpanded(g, q', pos', i, d + 1) && NoExitBefore(g, q', |q'| - 1)
    ensures !added || Last(q').cell.row != LastRow(g) ==> NoExitBefore(g, q', |q'|)
    ensures added <==> Open(g, Step(q[i].cell, d)) && Step(q[i].cell, d) !in been
    ensures added ==> q' == q + [QueueEntry(Step(q[i].cell, d), i, q[i].len + 1)] && been' == been + {Step(q[i].cell, d)}
    ensures !added ==> q' == q && been' == been
  {
    var next := Step(q[i].cell, d);
    // In a rectangular grid, Open is the bounds test against the first
    // row's width followed by the wall test.
    if Open(g, next) && next !in been {
      EnqueueStep(g, start, q, been, pos, i, d, next);
      pos' := pos[next := |q|];
      q' := q + [QueueEntry(next, i, q[i].len + 1)];
      been' := been + {next};
      added := true;
    } else {
      SkipStep(g, start, q, been, pos, i, d);
      q', been', pos', added := q, been, pos, false;
    }
  }

  /** The expansion of entry `i`: queue each open, unvisited neighbour in
      the order of `Deltas`, stopping as soon as a last-row cell is queued. */
  method ExpandMin(g: Grid, ghost start: Coords, q: seq<QueueEntry>, been: set<Coords>, ghost pos: map<Coords, int>, i: int)
    returns (q': seq<QueueEntry>, been': set<Coords>, ghost pos': map<Coords, int>, found: bool)
    requires Queue(g, start, q, been, pos) && Frontier(q, i) && Expanded(g, q, pos, i) && NoExitBefore(g, q, |q|)
    ensures Queue(g, start, q', been', pos') && Frontier(q', i) && Expanded(g, q', pos', i)
    ensures !found ==> Expanded(g, q', pos', i + 1) && NoExitBefore(g, q', |q'|)
    ensures found ==> NoExitBefore(g, q', |q'| - 1)
    ensures found ==> Last(q').cell.row == LastRow(g) && Last(q').len == q'[i].len + 1
  {
    q', been', pos' := q, been, pos;
    found := false;
    var rows := |g|;
    var d := 0;
    while d < |Deltas|
      invariant 0 <= d <= |Deltas|
      invariant Queue(g, start, q', been', pos') && Frontier(q', i) && Expanded(g, q', pos', i)
      invariant NoExitBefore(g, q', |q'|) && PartlyExpanded(g, q', pos', i, d)
    {
      var added;
      q', been', pos', added := TryDirection(g, start, q', been', pos', i, d);
      if added && Last(q').cell.row == rows - 1 {
        found := true;
        return;
      }
      d := d + 1;
    }
    FullyExpanded(g, q', pos', i);
  }

  /** The loop invariant of the search: the entries before `i` are
      expanded and no last-row cell other than the entrance is queued. */
  ghost predicate Searching(g: Grid, start: Coords, q: seq<QueueEntry>, been: set<Coords>, pos: map<Coords, int>, i: int) {
    && Queue(g, start, q, been, pos) && 0 <= i <= |q| && Expanded(g, q, pos, i) && NoExitBefore(g, q, |q|)
    && (i < |q| ==> Frontier(q, i))
  }

  /** A queue never holds more entries than the grid has cells. */
  lemma QueueFits(g: Grid, start: Coords, q: seq<QueueEntry>, been: set<Coords>, pos: map<Coords, int>)
    requires Queue(g, start, q, been, pos)
    ensures |q| <= |AllCells(g)|
  {
    SubsetSize(been, AllCells(g));
  }

  /** The queue holding the entrance alone starts the search. */
  lemma StartSearching(g: Grid, start: Coords)
    requires Rectangular(g) && InGrid(g, start)
    ensures Searching(g, start, [QueueEntry(start, -1, 0)], {start}, map[start := 0], 0)
  {
    InGridInAllCells(g, start);
    assert Indexed([QueueEntry(start, -1, 0)], {start}, map[start := 0]);
  }

  /** A search that expanded every queued entry without queuing an exit
      shows that no route exists. */
  lemma SearchExhausted(g: Grid, start: Coords, q: seq<QueueEntry>, been: set<Coords>, pos: map<Coords, int>, i: int)
    requires Searching(g, start, q, been, pos, i) && i >= |q|
    ensures forall w :: !IsRoute(g, start, w)
  {
    NoRoute(g, start, q, been, pos);
  }

  /** One round of the search loop after a successful deadline poll:
      expands entry `i`; `exit` is the index of the last-row cell it
      queued, which ends a shortest route, and -1 when it queued none. */
  method SearchStep(g: Grid, ghost start: Coords, q: seq<QueueEntry>, been: set<Coords>, ghost pos: map<Coords, int>, i: int)
    returns (q': seq<QueueEntry>, been': set<Coords>, ghost pos': map<Coords, int>, exit: int)
    requires Searching(g, start, q, been, pos, i) && i < |q|
    ensures Queue(g, start, q', been', pos') && 1 <= |q'|
    ensures exit == -1 ==> Searching(g, start, q', been', pos', i + 1)
    ensures exit != -1 ==>
              && 0 < exit < |q'| && q'[exit].cell.row == LastRow(g) && NoExitBefore(g, q', exit)
              && forall w :: IsRoute(g, start, w) ==> |w| >= q'[exit].len + 1
  {
    var found;
    q', been', pos', found := ExpandMin(g, start, q, been, pos, i);
    exit := -1;
    if found {
      FirstExitShortest(g, start, q', been', pos', i);
      exit := |q'| - 1;
    }
  }

  /** The search loop of the shortest-path solver. It polls the deadline
      before expanding each entry; `fuel` is the number of polls that find
      the deadline not yet passed. On success `exit` is the index of the
      first last-row cell queued, and -1 when the queue ran out. */
  method SearchMin(g: Grid, start: Coords, fuel: nat)
    returns (q: seq<QueueEntry>, ghost been: set<Coords>, ghost pos: map<Coords, int>, exit: int, timedOut: bool)
    requires Rectangular(g) && InGrid(g, start)
    ensures Queue(g, start, q, been, pos)
    ensures timedOut ==> fuel < |AllCells(g)|
    ensures fuel == 0 ==> timedOut
    ensures !timedOut && exit != -1 ==>
              && 0 < exit < |q| && q[exit].cell.row == LastRow(g) && NoExitBefore(g, q, exit)
              && forall w :: IsRoute(g, start, w) ==> |w| >= q[exit].len + 1
    ensures !timedOut && exit == -1 ==> forall w :: !IsRoute(g, start, w)
  {
    q := [QueueEntry(start, -1, 0)];
    var visited := {start};
    pos := map[start := 0];
    exit := -1;
    timedOut := false;
    var rem: nat := fuel;
    StartSearching(g, start);
    var i := 0;
    while i < |q|
      invariant Searching(g, start, q, visited, pos, i) && rem + i == fuel && exit == -1 && !timedOut
      invariant 1 <= |q|
      decreases |AllCells(g)| - i
    {
      QueueFits(g, start, q, visited, pos);
      if rem == 0 {
        been := visited;
        timedOut := true;
        return;
      }
      rem := rem - 1;
      q, visited, pos, exit := SearchStep(g, start, q, visited, pos, i);
      if exit != -1 {
        been := visited;
        return;
      }
      i := i + 1;
    }
    been := visited;
    SearchExhausted(g, start, q, been, pos, i);
  }

  /** Follows the back-links from entry `exit` to the entrance, writing each
      cell at the index of its recorded length. */
  method Rebuild(q: seq<QueueEntry>, exit: int) returns (res: seq<Coords>)
    requires Linked(q) && 0 <= exit < |q|
    ensures res == PathTo(q, exit)
  {
    var len := q[exit].len;
    assert |PathTo(q, exit)| == len + 1;
    res := seq(len + 1, _ => Coords(0, 0));
    var j := exit;
    while j >= 0
      invariant -1 <= j < |q| && |res| == len + 1
      invariant j >= 0 ==> 0 <= q[j].len <= len && PathTo(q, exit)[..q[j].len + 1] == PathTo(q, j)
      invariant forall m :: (if j >= 0 then q[j].len + 1 else 0) <= m <= len ==> res[m] == PathTo(q, exit)[m]
      decreases j + 1
    {
      res := res[q[j].len := q[j].cell];
      if j > 0 {
        assert PathTo(q, j)[..q[j].len] == PathTo(q, q[j].prev);
      }
      j := q[j].prev;
    }
  }

  /** The shortest path from `start` to a last-row cell other than `start`,
      as the cells from `start` to that exit. */
  method SolveMin(g: Grid, start: Coords, fuel: nat) returns (r: Result<seq<Coords>>)
    requires Rectangular(g) && InGrid(g, start)
    ensures r.Ok? ==> IsRoute(g, start, r.value) && Simple(r.value) && InteriorAvoidsLastRow(g, r.value)
    ensures r.Ok? ==> forall w :: IsRoute(g, start, w) ==> |r.value| <= |w|
    ensures r.Err? ==> r.error == NoSolution || r.error == TimelimitReached
    ensures r == Err(NoSolution) ==> forall w :: !IsRoute(g, start, w)
    ensures r == Err(TimelimitReached) ==> fuel < |AllCells(g)|
    ensures fuel == 0 ==> r == Err(TimelimitReached)
  {
    var q, been, pos, exit, timedOut := SearchMin(g, start, fuel);
    if timedOut {
      return Err(TimelimitReached);
    }
    if exit > 0 {
      var res := Rebuild(q, exit);
      PathIsRoute(g, start, q, been, pos, exit);
      return Ok(res);
    }
    return Err(NoSolution);
  }
}

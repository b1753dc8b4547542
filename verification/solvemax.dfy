/** The longest-path solver: a depth-first search over simple paths with an
    explicit stack. The stack is the current path; a cell is marked visited
    while it is on the path and unmarked when it is popped, so every simple
    path from the entrance is tried. A last-row cell ends a path. */
module MaxSearch {
  import opened MazeBase
  import opened Paths

  /** A stack frame: a cell of the current path and the index in `Deltas`
      of the next direction to try from it. */
  datatype Frame = Frame(cell: Coords, deltaI: int)

  /** The cells of the stack, bottom first: the current path. */
  function Cells(st: seq<Frame>): (p: seq<Coords>)
    ensures |p| == |st| && forall j :: 0 <= j < |st| ==> p[j] == st[j].cell
  {
    seq(|st|, j requires 0 <= j < |st| => st[j].cell)
  }

  /** Length of the longest common prefix of `a` and `b`, given that they
      agree below `i`. */
  function AgreeFrom(a: seq<Coords>, b: seq<Coords>, i: nat): (k: nat)
    requires i <= |a| && i <= |b| && forall j :: 0 <= j < i ==> a[j] == b[j]
    ensures i <= k <= |a| && k <= |b|
    ensures forall j :: 0 <= j < k ==> a[j] == b[j]
    ensures k < |a| && k < |b| ==> a[k] != b[k]
    decreases |a| - i
  {
    if i < |a| && i < |b| && a[i] == b[i] then AgreeFrom(a, b, i + 1) else i
  }

  /** Length of the longest common prefix of `a` and `b`. */
  function Agree(a: seq<Coords>, b: seq<Coords>): (k: nat)
    ensures k <= |a| && k <= |b|
    ensures forall j :: 0 <= j < k ==> a[j] == b[j]
    ensures k < |a| && k < |b| ==> a[k] != b[k]
  {
    AgreeFrom(a, b, 0)
  }

  /** The common prefix length is the only length with the three
      properties of `Agree`. */
  lemma AgreeIs(a: seq<Coords>, b: seq<Coords>, k: nat)
    requires k <= |a| && k <= |b| && forall j :: 0 <= j < k ==> a[j] == b[j]
    requires k < |a| && k < |b| ==> a[k] != b[k]
    ensures Agree(a, b) == k
  {
  }

  /** A simple sequence does not return to a cell of its prefix. */
  lemma LeavesPrefix(w: seq<Coords>, p: seq<Coords>)
    requires Simple(w) && |p| < |w| && forall j :: 0 <= j < |p| ==> p[j] == w[j]
    ensures w[|p|] !in p
  {
    forall j | 0 <= j < |p| ensures p[j] != w[|p|] {
      assert w[j] != w[|p|];
    }
  }

  /** The stack is a simple walk from the entrance; the frames below the top
      are not in the last row and have tried at least one direction. */
  ghost predicate Shape(g: Grid, start: Coords, st: seq<Frame>) {
    && |st| >= 1
    && IsWalk(g, start, Cells(st)) && Simple(Cells(st))
    && (forall j :: 0 <= j < |st| - 1 ==> st[j].cell.row != LastRow(g) && 1 <= st[j].deltaI <= |Deltas|)
    && 0 <= st[|st| - 1].deltaI <= |Deltas|
  }

  /** The visited cells lie on the stack. */
  ghost predicate VisitedOnStack(st: seq<Frame>, been: set<Coords>) {
    forall c :: c in been ==> c in Cells(st)
  }

  /** Every frame below the top has been visited. */
  ghost predicate BelowTopVisited(st: seq<Frame>, been: set<Coords>) {
    forall j :: 0 <= j < |st| - 1 ==> st[j].cell in been
  }

  /** The search has not yet finished with `w`: at the frame where `w` leaves
      the stack, the direction `w` takes has not been tried yet, or `w` is
      the stack itself and its top has not been visited. */
  ghost predicate Pending(st: seq<Frame>, w: seq<Coords>) {
    var p := Cells(st);
    var k := Agree(w, p);
    && 1 <= k <= |st|
    && ((k == |st| == |w| && st[k - 1].deltaI == 0) ||
        (k < |w| && DirTo(p[k - 1], w[k]) >= st[k - 1].deltaI))
  }

  /** If `w` is a leaf path, it is no longer than the best one found, or
      still ahead. */
  ghost predicate Accounted(g: Grid, start: Coords, st: seq<Frame>, res: seq<Coords>, w: seq<Coords>) {
    IsLeafPath(g, start, w) ==> |w| <= |res| || Pending(st, w)
  }

  /** Every leaf path is no longer than the best one found, or still ahead. */
  ghost predicate Complete(g: Grid, start: Coords, st: seq<Frame>, res: seq<Coords>) {
    forall w :: Accounted(g, start, st, res, w)
  }

  /** The best path so far: none yet, or a leaf path. */
  ghost predicate Best(g: Grid, start: Coords, res: seq<Coords>) {
    res == [] || IsLeafPath(g, start, res)
  }

  /** The initial stack holds only the entrance, not yet visited: every leaf
      path is ahead. */
  lemma InitComplete(g: Grid, start: Coords)
    ensures Complete(g, start, [Frame(start, 0)], [])
  {
    var st := [Frame(start, 0)];
    forall w ensures Accounted(g, start, st, [], w) {
      if IsLeafPath(g, start, w) {
        AgreeIs(w, Cells(st), 1);
      }
    }
  }

  /** Once the stack is empty, no leaf path is longer than the result. */
  lemma DoneComplete(g: Grid, start: Coords, res: seq<Coords>)
    requires Complete(g, start, [], res)
    ensures forall w :: IsLeafPath(g, start, w) ==> |w| <= |res|
  {
    forall w | IsLeafPath(g, start, w) ensures |w| <= |res| {
      assert Accounted(g, start, [], res, w);
    }
  }

  /** A stack whose top is in the last row is itself a leaf path. */
  lemma StackIsLeafPath(g: Grid, start: Coords, st: seq<Frame>)
    requires Shape(g, start, st) && st[|st| - 1].cell.row == LastRow(g)
    ensures IsLeafPath(g, start, Cells(st))
  {
  }

  /** Setting the top's direction index keeps the path. */
  lemma CellsSetTop(st: seq<Frame>, d: int)
    requires |st| >= 1
    ensures Cells(st[|st| - 1 := Frame(st[|st| - 1].cell, d)]) == Cells(st)
  {
  }

  /** Visiting a top in the last row: the result now covers the stack, and
      nothing continues past an exit. */
  lemma VisitExit(g: Grid, start: Coords, st: seq<Frame>, been: set<Coords>, res: seq<Coords>, res': seq<Coords>)
    requires Shape(g, start, st) && st[|st| - 1].cell.row == LastRow(g)
    requires VisitedOnStack(st, been) && BelowTopVisited(st, been)
    requires Complete(g, start, st, res) && |res'| >= |res| && |res'| >= |st|
    ensures var st' := st[|st| - 1 := Frame(st[|st| - 1].cell, |Deltas|)];
            && Shape(g, start, st') && Cells(st') == Cells(st)
            && VisitedOnStack(st', been) && BelowTopVisited(st', been)
            && Complete(g, start, st', res')
  {
    var n := |st|;
    var st' := st[n - 1 := Frame(st[n - 1].cell, |Deltas|)];
    CellsSetTop(st, |Deltas|);
    forall w ensures Accounted(g, start, st', res', w) {
      if IsLeafPath(g, start, w) && |w| > |res'| {
        var p := Cells(st);
        var k := Agree(w, p);
        assert Accounted(g, start, st, res, w);
        assert w[k - 1] == p[k - 1];
      }
    }
  }

  /** Marking the top visited keeps the visited cells on the stack. */
  lemma MarkTop(g: Grid, start: Coords, st: seq<Frame>, been: set<Coords>)
    requires Shape(g, start, st) && VisitedOnStack(st, been) && BelowTopVisited(st, been)
    ensures VisitedOnStack(st, been + {st[|st| - 1].cell}) && BelowTopVisited(st, been + {st[|st| - 1].cell})
  {
    assert Cells(st)[|st| - 1] == st[|st| - 1].cell;
  }

  /** Trying direction `d` of the top when its neighbour there is a wall,
      outside the grid, or on the path: no leaf path goes that way. */
  lemma RejectKeeps(g: Grid, start: Coords, st: seq<Frame>, been: set<Coords>, res: seq<Coords>, d: nat)
    requires Shape(g, start, st) && VisitedOnStack(st, been) && Complete(g, start, st, res)
    requires st[|st| - 1].cell.row != LastRow(g) && st[|st| - 1].deltaI == d < |Deltas|
    requires !Open(g, Step(st[|st| - 1].cell, d)) || Step(st[|st| - 1].cell, d) in been
    ensures Complete(g, start, st[|st| - 1 := Frame(st[|st| - 1].cell, d + 1)], res)
  {
    var n := |st|;
    var st' := st[n - 1 := Frame(st[n - 1].cell, d + 1)];
    CellsSetTop(st, d + 1);
    var p := Cells(st);
    forall w ensures Accounted(g, start, st', res, w) {
      if IsLeafPath(g, start, w) && |w| > |res| {
        assert Accounted(g, start, st, res, w);
        RejectKeepsPath(g, start, st, been, d, w);
      }
    }
  }

  /** Rejecting direction `d` keeps one pending leaf path pending. */
  lemma RejectKeepsPath(g: Grid, start: Coords, st: seq<Frame>, been: set<Coords>, d: nat, w: seq<Coords>)
    requires Shape(g, start, st) && VisitedOnStack(st, been) && IsLeafPath(g, start, w) && Pending(st, w)
    requires st[|st| - 1].cell.row != LastRow(g) && st[|st| - 1].deltaI == d < |Deltas|
    requires !Open(g, Step(st[|st| - 1].cell, d)) || Step(st[|st| - 1].cell, d) in been
    ensures Pending(st[|st| - 1 := Frame(st[|st| - 1].cell, d + 1)], w)
  {
    var n := |st|;
    CellsSetTop(st, d + 1);
    var p := Cells(st);
    var k := Agree(w, p);
    assert w[k - 1] == p[k - 1];
    if k == n {
      assert Adjacent(w[n - 1], w[n]) && Open(g, w[n]);
      LeavesPrefix(w, p);
      assert w[n] != Step(st[n - 1].cell, d);
    }
  }

  /** The stack after pushing the open, unvisited neighbour in direction `d`. */
  function Pushed(st: seq<Frame>, d: nat): seq<Frame>
    requires |st| >= 1 && d < |Deltas|
  {
    st[|st| - 1 := Frame(st[|st| - 1].cell, d + 1)] + [Frame(Step(st[|st| - 1].cell, d), 0)]
  }

  /** Pushing keeps the stack a simple walk. */
  lemma PushShape(g: Grid, start: Coords, st: seq<Frame>, been: set<Coords>, d: nat)
    requires Shape(g, start, st) && VisitedOnStack(st, been) && BelowTopVisited(st, been) && st[|st| - 1].cell in been
    requires st[|st| - 1].cell.row != LastRow(g) && st[|st| - 1].deltaI == d < |Deltas|
    requires Open(g, Step(st[|st| - 1].cell, d)) && Step(st[|st| - 1].cell, d) !in been
    ensures Shape(g, start, Pushed(st, d)) && Cells(Pushed(st, d)) == Cells(st) + [Step(st[|st| - 1].cell, d)]
    ensures VisitedOnStack(Pushed(st, d), been) && BelowTopVisited(Pushed(st, d), been)
  {
    var n := |st|;
    var next := Step(st[n - 1].cell, d);
    var st' := Pushed(st, d);
    CellsSetTop(st, d + 1);
    assert Cells(st') == Cells(st) + [next];
    StepIsAdjacent(st[n - 1].cell, d);
    ExtendWalk(g, start, Cells(st), next);
    forall j | 0 <= j < n ensures Cells(st)[j] != next {
      assert st[j].cell in been;
    }
  }

  /** Pushing keeps every leaf path covered or ahead. */
  lemma PushKeeps(g: Grid, start: Coords, st: seq<Frame>, res: seq<Coords>, d: nat)
    requires Shape(g, start, st) && Complete(g, start, st, res)
    requires st[|st| - 1].cell.row != LastRow(g) && st[|st| - 1].deltaI == d < |Deltas|
    ensures Complete(g, start, Pushed(st, d), res)
  {
    var n := |st|;
    var next := Step(st[n - 1].cell, d);
    var st' := Pushed(st, d);
    CellsSetTop(st, d + 1);
    var p := Cells(st);
    var p' := Cells(st');
    assert p' == p + [next];
    forall w ensures Accounted(g, start, st', res, w) {
      if IsLeafPath(g, start, w) && |w| > |res| {
        assert Accounted(g, start, st, res, w);
        PushKeepsPath(g, start, st, d, w);
      }
    }
  }

  /** Pushing keeps one pending leaf path pending. */
  lemma PushKeepsPath(g: Grid, start: Coords, st: seq<Frame>, d: nat, w: seq<Coords>)
    requires Shape(g, start, st) && IsLeafPath(g, start, w) && Pending(st, w)
    requires st[|st| - 1].cell.row != LastRow(g) && st[|st| - 1].deltaI == d < |Deltas|
    ensures Pending(Pushed(st, d), w)
  {
    var n := |st|;
    var next := Step(st[n - 1].cell, d);
    var p := Cells(st);
    var p' := Cells(Pushed(st, d));
    CellsSetTop(st, d + 1);
    assert p' == p + [next];
    var k := Agree(w, p);
    assert w[k - 1] == p[k - 1];
    if k < n {
      AgreeIs(w, p', k);
    } else if w[n] == next {
      AgreeIs(w, p', n + 1);
    } else {
      AgreeIs(w, p', n);
    }
  }

  /** Popping a top whose directions are all tried keeps every leaf path
      covered or ahead. */
  lemma PopKeeps(g: Grid, start: Coords, st: seq<Frame>, res: seq<Coords>)
    requires Shape(g, start, st) && Complete(g, start, st, res) && st[|st| - 1].deltaI == |Deltas|
    ensures Complete(g, start, st[..|st| - 1], res)
  {
    var n := |st|;
    var st' := st[..n - 1];
    var p := Cells(st);
    var p' := Cells(st');
    assert p' == p[..n - 1];
    forall w ensures Accounted(g, start, st', res, w) {
      if IsLeafPath(g, start, w) && |w| > |res| {
        assert Accounted(g, start, st, res, w);
        PopKeepsPath(g, start, st, w);
      }
    }
  }

  /** Popping keeps one pending leaf path pending. */
  lemma PopKeepsPath(g: Grid, start: Coords, st: seq<Frame>, w: seq<Coords>)
    requires Shape(g, start, st) && IsLeafPath(g, start, w) && Pending(st, w) && st[|st| - 1].deltaI == |Deltas|
    ensures Pending(st[..|st| - 1], w)
  {
    var n := |st|;
    var p := Cells(st);
    var p' := Cells(st[..n - 1]);
    assert p' == p[..n - 1];
    var k := Agree(w, p);
    assert w[k - 1] == p[k - 1];
    assert k < |w| ==> Adjacent(w[k - 1], w[k]);
    AgreeIs(w, p', k);
  }

  /** Popping keeps the visited cells on the stack and the rest visited. */
  lemma PopVisited(g: Grid, start: Coords, st: seq<Frame>, been: set<Coords>)
    requires Shape(g, start, st) && VisitedOnStack(st, been) && BelowTopVisited(st, been)
    ensures VisitedOnStack(st[..|st| - 1], been - {st[|st| - 1].cell})
    ensures BelowTopVisited(st[..|st| - 1], been - {st[|st| - 1].cell})
    ensures |st| >= 2 ==> Shape(g, start, st[..|st| - 1])
  {
    var n := |st|;
    var st' := st[..n - 1];
    var p := Cells(st);
    assert Cells(st') == p[..n - 1];
    forall c | c in been - {st[n - 1].cell} ensures c in Cells(st') {
      var j :| 0 <= j < n && p[j] == c;
    }
    forall j | 0 <= j < n - 2 ensures st'[j].cell in been - {st[n - 1].cell} {
      assert p[j] != p[n - 1];
    }
    if n >= 2 {
      assert IsWalk(g, start, p[..n - 1]);
    }
  }

  /** Visits the top of the stack: marks it visited and, when it lies in the
      last row, keeps the stack as the result if it is strictly longer than
      the result so far and ends the path there. */
  method Visit(g: Grid, ghost start: Coords, st: seq<Frame>, been: set<Coords>, res: seq<Coords>)
    returns (st': seq<Frame>, been': set<Coords>, res': seq<Coords>)
    requires Rectangular(g) && Shape(g, start, st) && VisitedOnStack(st, been) && BelowTopVisited(st, been)
    requires Complete(g, start, st, res) && Best(g, start, res)
    ensures Shape(g, start, st') && Cells(st') == Cells(st)
    ensures VisitedOnStack(st', been') && BelowTopVisited(st', been') && st'[|st'| - 1].cell in been'
    ensures Complete(g, start, st', res') && Best(g, start, res')
    ensures st'[|st'| - 1].cell.row == LastRow(g) ==> st'[|st'| - 1].deltaI == |Deltas|
    ensures res' == res || (|res| < |st| && res' == Cells(st))
  {
    var n := |st|;
    var cur := st[n - 1];
    been' := been + {cur.cell};
    MarkTop(g, start, st, been);
    st', res' := st, res;
    if cur.cell.row == |g| - 1 {
      if n > |res| {
        StackIsLeafPath(g, start, st);
        res' := Cells(st);
      }
      VisitExit(g, start, st, been', res, res');
      st' := st[n - 1 := Frame(cur.cell, |Deltas|)];
    }
  }

  /** The search may step from `c` in direction `d`: the neighbour there
      is open and not on the current path. */
  predicate Eligible(g: Grid, c: Coords, been: set<Coords>, d: nat)
    requires d < |Deltas|
  {
    Open(g, Step(c, d)) && Step(c, d) !in been
  }

  /** The first direction from `d` on that the search may step in from
      `c`, and `|Deltas|` when there is none. */
  function NextDirection(g: Grid, c: Coords, been: set<Coords>, d: nat): (e: nat)
    requires d <= |Deltas|
    ensures d <= e <= |Deltas|
    ensures e < |Deltas| ==> Eligible(g, c, been, e)
    ensures forall k :: d <= k < e ==> !Eligible(g, c, been, k)
    decreases |Deltas| - d
  {
    if d == |Deltas| then d
    else if Eligible(g, c, been, d) then d
    else NextDirection(g, c, been, d + 1)
  }

  /** The three properties of `NextDirection` determine it. */
  lemma {:induction false} NextDirectionIs(g: Grid, c: Coords, been: set<Coords>, d: nat, e: nat)
    requires d <= e <= |Deltas| && (e < |Deltas| ==> Eligible(g, c, been, e))
    requires forall k :: d <= k < e ==> !Eligible(g, c, been, k)
    ensures NextDirection(g, c, been, d) == e
    decreases e - d
  {
    if d < e {
      NextDirectionIs(g, c, been, d + 1, e);
    }
  }

  /** The direction loop of one step: tries the directions from `d` on in
      order and stops at the first one the search may step in, or at
      `|Deltas|` when none is left. */
  method FindDirection(g: Grid, c: Coords, been: set<Coords>, d: nat) returns (e: nat)
    requires d <= |Deltas|
    ensures d <= e <= |Deltas|
    ensures e < |Deltas| ==> Eligible(g, c, been, e)
    ensures forall k :: d <= k < e ==> !Eligible(g, c, been, k)
  {
    e := d;
    while e < |Deltas|
      invariant d <= e <= |Deltas|
      invariant forall k :: d <= k < e ==> !Eligible(g, c, been, k)
    {
      var next := Step(c, e);
      if Open(g, next) && next !in been {
        return;
      }
      e := e + 1;
    }
  }

  /** Changing the next direction of the top keeps the stack's shape and
      cells. */
  lemma SetTopShape(g: Grid, start: Coords, st: seq<Frame>, e: nat)
    requires Shape(g, start, st) && e <= |Deltas|
    ensures Shape(g, start, st[|st| - 1 := Frame(st[|st| - 1].cell, e)])
    ensures Cells(st[|st| - 1 := Frame(st[|st| - 1].cell, e)]) == Cells(st)
  {
    CellsSetTop(st, e);
  }

  /** Directions the search may not step in are skipped without changing
      what the search has yet to find. */
  lemma {:induction false} SkipRejected(g: Grid, start: Coords, st: seq<Frame>, been: set<Coords>, res: seq<Coords>, e: nat)
    requires Shape(g, start, st) && VisitedOnStack(st, been) && Complete(g, start, st, res)
    requires st[|st| - 1].cell.row == LastRow(g) ==> st[|st| - 1].deltaI == |Deltas|
    requires st[|st| - 1].deltaI <= e <= |Deltas|
    requires var top := st[|st| - 1]; forall k :: top.deltaI <= k < e ==> !Eligible(g, top.cell, been, k)
    ensures Complete(g, start, st[|st| - 1 := Frame(st[|st| - 1].cell, e)], res)
    decreases e
  {
    var n := |st|;
    var cur := st[n - 1];
    var top := st[n - 1 := Frame(cur.cell, e)];
    if e == cur.deltaI {
      assert top == st;
    } else {
      SkipRejected(g, start, st, been, res, e - 1);
      var prev := st[n - 1 := Frame(cur.cell, e - 1)];
      assert prev[n - 1 := Frame(cur.cell, e)] == top;
      SetTopShape(g, start, st, e - 1);
      assert !Eligible(g, cur.cell, been, e - 1);
      RejectKeeps(g, start, prev, been, res, e - 1);
    }
  }

  /** One step after a visit: pushes the neighbour in the first direction
      the search may step in, or, when no direction is left, unmarks the
      top and pops it. */
  method Advance(g: Grid, ghost start: Coords, st: seq<Frame>, been: set<Coords>, ghost res: seq<Coords>)
    returns (st': seq<Frame>, been': set<Coords>)
    requires Shape(g, start, st) && VisitedOnStack(st, been) && BelowTopVisited(st, been) && st[|st| - 1].cell in been
    requires Complete(g, start, st, res)
    requires st[|st| - 1].cell.row == LastRow(g) ==> st[|st| - 1].deltaI == |Deltas|
    ensures |st'| >= 1 ==> Shape(g, start, st') && BelowTopVisited(st', been')
    ensures VisitedOnStack(st', been') && Complete(g, start, st', res)
    ensures var top := st[|st| - 1];
            var e := NextDirection(g, top.cell, been, top.deltaI);
            if e < |Deltas| then st' == Pushed(st, e) && been' == been
            else st' == st[..|st| - 1] && been' == been - {top.cell}
  {
    var n := |st|;
    var cur := st[n - 1];
    var e := FindDirection(g, cur.cell, been, cur.deltaI);
    NextDirectionIs(g, cur.cell, been, cur.deltaI, e);
    SkipRejected(g, start, st, been, res, e);
    SetTopShape(g, start, st, e);
    var top := st[n - 1 := Frame(cur.cell, e)];
    if e < |Deltas| {
      st' := Push(g, start, top, been, res, e);
      been' := been;
      assert Pushed(top, e) == Pushed(st, e);
    } else {
      st', been' := Pop(g, start, top, been, res);
      assert top[..n - 1] == st[..n - 1];
    }
  }

  /** Descends in direction `d` from the top, to an open neighbour not yet
      visited. */
  method Push(g: Grid, ghost start: Coords, st: seq<Frame>, been: set<Coords>, ghost res: seq<Coords>, d: nat)
    returns (st': seq<Frame>)
    requires Shape(g, start, st) && VisitedOnStack(st, been) && BelowTopVisited(st, been) && st[|st| - 1].cell in been
    requires Complete(g, start, st, res)
    requires st[|st| - 1].deltaI == d < |Deltas| && st[|st| - 1].cell.row != LastRow(g)
    requires Open(g, Step(st[|st| - 1].cell, d)) && Step(st[|st| - 1].cell, d) !in been
    ensures st' == Pushed(st, d)
    ensures Shape(g, start, st') && BelowTopVisited(st', been)
    ensures VisitedOnStack(st', been) && Complete(g, start, st', res)
  {
    PushShape(g, start, st, been, d);
    PushKeeps(g, start, st, res, d);
    st' := st[|st| - 1 := Frame(st[|st| - 1].cell, d + 1)] + [Frame(Step(st[|st| - 1].cell, d), 0)];
  }

  /** Leaves the top cell once every direction from it has been tried. */
  method Pop(g: Grid, ghost start: Coords, st: seq<Frame>, been: set<Coords>, ghost res: seq<Coords>)
    returns (st': seq<Frame>, been': set<Coords>)
    requires Shape(g, start, st) && VisitedOnStack(st, been) && BelowTopVisited(st, been) && st[|st| - 1].cell in been
    requires Complete(g, start, st, res) && st[|st| - 1].deltaI == |Deltas|
    ensures st' == st[..|st| - 1] && been' == been - {st[|st| - 1].cell}
    ensures |st'| >= 1 ==> Shape(g, start, st') && BelowTopVisited(st', been')
    ensures VisitedOnStack(st', been') && Complete(g, start, st', res)
  {
    PopKeeps(g, start, st, res);
    PopVisited(g, start, st, been);
    been' := been - {st[|st| - 1].cell};
    st' := st[..|st| - 1];
  }

  /** The longest path from `start` that ends at its first last-row cell,
      as the cells from `start` to that cell; among paths of equal length,
      the first one the search meets. `fuel` is the number of deadline polls
      that find the deadline not yet passed: the search polls once per
      step. */
  method SolveMax(g: Grid, start: Coords, fuel: nat) returns (r: Result<seq<Coords>>)
    requires Rectangular(g) && InGrid(g, start)
    ensures r.Ok? ==> IsLeafPath(g, start, r.value)
    ensures r.Ok? ==> forall w :: IsLeafPath(g, start, w) ==> |w| <= |r.value|
    ensures r.Err? ==> r.error == NoSolution || r.error == TimelimitReached
    ensures r == Err(NoSolution) ==> forall w :: !IsLeafPath(g, start, w)
    ensures fuel == 0 ==> r == Err(TimelimitReached)
  {
    var st := [Frame(start, 0)];
    var been: set<Coords> := {};
    var res: seq<Coords> := [];
    var rem: nat := fuel;
    InitComplete(g, start);
    assert Cells(st) == [start];
    while |st| > 0
      invariant |st| >= 1 ==> Shape(g, start, st) && BelowTopVisited(st, been)
      invariant VisitedOnStack(st, been) && Complete(g, start, st, res) && Best(g, start, res)
      invariant rem <= fuel && (fuel == 0 ==> |st| >= 1)
      decreases rem
    {
      if rem == 0 {
        return Err(TimelimitReached);
      }
      rem := rem - 1;
      st, been, res := Visit(g, start, st, been, res);
      st, been := Advance(g, start, st, been, res);
    }
    DoneComplete(g, start, res);
    if res == [] {
      return Err(NoSolution);
    }
    return Ok(res);
  }
}

/** The solving entry point: builds the grid of a stored maze, decodes its
    entrance, runs the shortest- or longest-path search the `steps` value
    names, and writes the path found as cell labels. */
module Solve {
  import opened MazeBase
  import opened Codec
  import opened Maze
  import opened Paths
  import opened MinSearch
  import opened MaxSearch
  import opened GridSize
  import opened Validate

  /** The two accepted `steps` values. */
  const StepsMin := "min"
  const StepsMax := "max"

  /** A path of the shortest-path search: a simple route with no cell
      strictly between its ends in the last row (the entrance itself may
      lie there), no longer than any other route. */
  ghost predicate ShortestRoute(g: Grid, start: Coords, p: seq<Coords>) {
    && IsRoute(g, start, p) && Simple(p) && InteriorAvoidsLastRow(g, p)
    && forall w :: IsRoute(g, start, w) ==> |p| <= |w|
  }

  /** A path of the longest-path search no shorter than any other. */
  ghost predicate LongestLeafPath(g: Grid, start: Coords, p: seq<Coords>) {
    IsLeafPath(g, start, p) && forall w :: IsLeafPath(g, start, w) ==> |w| <= |p|
  }

  /** The labels of the cells of `p`, in order. */
  function Labels(p: seq<Coords>): (t: seq<string>)
    ensures |t| == |p|
  {
    seq(|p|, i requires 0 <= i < |p| => CoordsToA1(p[i]))
  }

  /** Labels of cells inside a grid decode back to the cells: a caller can
      read the path off the answer. */
  lemma LabelsDecode(g: Grid, p: seq<Coords>)
    requires forall k :: 0 <= k < |p| ==> InGrid(g, p[k])
    ensures forall k :: 0 <= k < |p| ==> A1ToCoords(Labels(p)[k]) == Ok(p[k])
  {
    forall k | 0 <= k < |p| ensures A1ToCoords(Labels(p)[k]) == Ok(p[k]) {
      RoundTrip(p[k]);
    }
  }

  /** The result of a solve: the labels of a shortest route for "min", of
      a longest leaf path for "max". */
  ghost predicate Answer(g: Grid, start: Coords, steps: string, t: seq<string>) {
    exists p ::
      && t == Labels(p)
      && (steps == StepsMin ==> ShortestRoute(g, start, p))
      && (steps == StepsMax ==> LongestLeafPath(g, start, p))
  }

  /** Solves a stored maze. The grid is built first, and a wall label that
      does not decode fails with the shared bad-input error; so does an
      entrance label that does not decode, and a `steps` value other than
      "min" and "max". The search's own failure is passed on. The grid is
      built before anything else, so every wall that is marked must lie
      inside it; the searches index the grid, so for "min" and "max" it
      needs at least one row and an entrance that, when it decodes, lies
      inside it. A caller passes a maze that validation accepted.
      `fuel` is the number of deadline polls that find the deadline not
      yet passed. */
  method Solve(rows: int, cols: int, entrance: string, walls: seq<string>, steps: string, fuel: nat)
    returns (r: Result<seq<string>>)
    requires rows >= 0 && cols >= 0 && WallsFit(walls, rows, cols)
    requires steps == StepsMin || steps == StepsMax ==> rows >= 1
    requires (steps == StepsMin || steps == StepsMax) && AllDecode(walls) && A1ToCoords(entrance).Ok? ==>
               AreValid(A1ToCoords(entrance).value, rows, cols)
    ensures !AllDecode(walls) ==> r == Err(BadInput)
    ensures AllDecode(walls) && A1ToCoords(entrance).Err? ==> r == Err(BadInput)
    ensures steps != StepsMin && steps != StepsMax ==> r == Err(BadInput)
    ensures r.Err? ==> r.error in {BadInput, NoSolution, TimelimitReached}
    ensures AllDecode(walls) && A1ToCoords(entrance).Ok? && (steps == StepsMin || steps == StepsMax) ==>
              r.Ok? || r.error == NoSolution || r.error == TimelimitReached
    ensures AllDecode(walls) && A1ToCoords(entrance).Ok? && (steps == StepsMin || steps == StepsMax) && fuel == 0 ==>
              r == Err(TimelimitReached)
    ensures steps == StepsMin && r == Err(TimelimitReached) ==> fuel < rows * cols
    ensures r.Ok? ==> AllDecode(walls) && A1ToCoords(entrance).Ok? && (steps == StepsMin || steps == StepsMax)
    ensures r.Ok? ==> Answer(MakeMaze(rows, cols, walls).value, A1ToCoords(entrance).value, steps, r.value)
    ensures r == Err(NoSolution) && steps == StepsMin ==>
              forall w :: !IsRoute(MakeMaze(rows, cols, walls).value, A1ToCoords(entrance).value, w)
    ensures r == Err(NoSolution) && steps == StepsMax ==>
              forall w :: !IsLeafPath(MakeMaze(rows, cols, walls).value, A1ToCoords(entrance).value, w)
  {
    var maze := MakeMaze(rows, cols, walls);
    if maze.Err? {
      return Err(maze.error);
    }
    var start := A1ToCoords(entrance);
    if start.Err? {
      return Err(start.error);
    }
    var g, s := maze.value, start.value;
    var res: Result<seq<Coords>>;
    if steps == StepsMin {
      res := SolveMin(g, s, fuel);
      if res.Ok? {
        assert ShortestRoute(g, s, res.value);
      }
      AllCellsSize(g);
    } else if steps == StepsMax {
      res := SolveMax(g, s, fuel);
      if res.Ok? {
        assert LongestLeafPath(g, s, res.value);
      }
    } else {
      return Err(BadInput);
    }
    if res.Err? {
      return Err(res.error);
    }
    r := Ok(Labels(res.value));
  }

  /** An answer reads back: its labels decode, in order, to a walk from
      the entrance, so the path found can be replayed on the grid. */
  lemma AnswerReadsBack(g: Grid, start: Coords, steps: string, t: seq<string>)
    requires InGrid(g, start) && Answer(g, start, steps, t)
    requires steps == StepsMin || steps == StepsMax
    ensures exists p :: IsWalk(g, start, p) && |p| == |t| &&
                        forall k :: 0 <= k < |t| ==> A1ToCoords(t[k]) == Ok(p[k])
  {
    var p :| && t == Labels(p)
             && (steps == StepsMin ==> ShortestRoute(g, start, p))
             && (steps == StepsMax ==> LongestLeafPath(g, start, p));
    assert IsWalk(g, start, p);
    assert forall k :: 0 <= k < |p| ==> InGrid(g, p[k]);
    LabelsDecode(g, p);
  }

  /** A route that meets the last row only at its end, from an entrance
      outside the last row, is a leaf path: the shortest-path answer is no
      longer than the longest-path answer. */
  lemma MinNoLongerThanMax(g: Grid, start: Coords, p: seq<Coords>, q: seq<Coords>)
    requires start.row != LastRow(g)
    requires IsRoute(g, start, p) && Simple(p) && InteriorAvoidsLastRow(g, p)
    requires LongestLeafPath(g, start, q)
    ensures IsLeafPath(g, start, p) && |p| <= |q|
  {
    assert forall m :: 0 <= m < |p| - 1 ==> p[m].row != LastRow(g) by {
      forall m | 0 <= m < |p| - 1 ensures p[m].row != LastRow(g) {
        if m == 0 {
          assert p[m] == start;
        }
      }
    }
  }

  /** With the entrance in the last row, the entrance and the end of a
      route are two different reachable last-row cells. */
  lemma RouteFromLastRow(g: Grid, start: Coords, w: seq<Coords>)
    requires Rectangular(g) && InGrid(g, start) && start.row == LastRow(g)
    requires IsRoute(g, start, w)
    ensures |ReachableExits(g, start)| >= 2
  {
    InGridInAllCells(g, start);
    StartReachable(g, start);
    WalkInGrid(g, start, w, |w| - 1);
    assert Reachable(g, start, Last(w));
    assert {start, Last(w)} <= ReachableExits(g, start);
    SubsetSize({start, Last(w)}, ReachableExits(g, start));
  }

  /** The exit count of the validator includes an entrance in the last
      row, while the shortest-path search never takes the entrance as its
      exit: with the entrance in the last row and exactly one reachable
      last-row cell, there is no route at all. */
  lemma LastRowEntranceNoRoute(g: Grid, start: Coords)
    requires Rectangular(g) && InGrid(g, start) && start.row == LastRow(g)
    requires |ReachableExits(g, start)| == 1
    ensures forall w :: !IsRoute(g, start, w)
  {
    forall w | IsRoute(g, start, w) ensures |ReachableExits(g, start)| >= 2 {
      RouteFromLastRow(g, start, w);
    }
  }

  /** A maze the validator accepts, with its entrance in the last row, has
      no answer for "min": validation and solving disagree there. */
  lemma ValidLastRowEntranceNoRoute(gridSize: string, entrance: string, walls: seq<string>)
    requires ValidMaze(gridSize, entrance, walls)
    requires A1ToCoords(entrance).value.row == ParseGridSize(gridSize).value.0 - 1
    ensures var (rows, cols) := ParseGridSize(gridSize).value;
            forall w :: !IsRoute(MakeMaze(rows, cols, walls).value, A1ToCoords(entrance).value, w)
  {
    var (rows, cols) := ParseGridSize(gridSize).value;
    var g := MakeMaze(rows, cols, walls).value;
    var start := A1ToCoords(entrance).value;
    AreValidInGrid(g, start, rows, cols);
    LastRowEntranceNoRoute(g, start);
  }

  /** An entrance in the last row is already an exit for the longest-path
      search: the entrance alone is its only path, while the shortest-path
      search only accepts routes that leave the entrance. */
  lemma EntranceInLastRow(g: Grid, start: Coords)
    requires start.row == LastRow(g)
    ensures IsLeafPath(g, start, [start])
    ensures forall w :: IsLeafPath(g, start, w) ==> w == [start]
    ensures forall w :: IsRoute(g, start, w) ==> |w| >= 2
  {
    forall w: seq<Coords> | IsLeafPath(g, start, w) ensures w == [start] {
      assert w[0].row == LastRow(g);
    }
  }
}

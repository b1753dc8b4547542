/** Validation of a maze description: grid size, entrance, walls, and the
    single-exit rule. Checks run in a fixed order and the first failure is
    the result. */
module Validate {
  import opened MazeBase
  import opened Codec
  import opened GridSize
  import opened Maze
  import opened Paths
  import opened Reach

  /** What a successful validation yields: the size, the entrance cell and
      the wall cells in the order given. */
  datatype Validated = Validated(rows: int, cols: int, entrance: Coords, walls: seq<Coords>)

  /** `s` decodes to a cell inside a rows x cols grid. */
  predicate LabelFits(s: string, rows: int, cols: int) {
    A1ToCoords(s).Ok? && AreValid(A1ToCoords(s).value, rows, cols)
  }

  /** A wall label passes when it is not the entrance label, compared as
      text, and names a cell inside the grid. */
  predicate WallPasses(wall: string, entrance: string, rows: int, cols: int) {
    wall != entrance && LabelFits(wall, rows, cols)
  }

  /** The error a failing wall label produces. */
  function WallError(wall: string, entrance: string): Error {
    if wall == entrance then EntranceIsWall else InvalidWall(wall)
  }

  /** The wall loop: decodes every wall label in order, failing on the first
      one that is the entrance label or does not name a cell of the grid. */
  function CheckWalls(entrance: string, walls: seq<string>, rows: int, cols: int): (r: Result<seq<Coords>>)
    ensures r.Ok? <==> forall k :: 0 <= k < |walls| ==> WallPasses(walls[k], entrance, rows, cols)
    ensures r.Err? ==> r.error == EntranceIsWall || r.error.InvalidWall?
    ensures r.Ok? ==>
              (|r.value| == |walls| && forall k :: 0 <= k < |walls| ==> A1ToCoords(walls[k]) == Ok(r.value[k]))
    ensures forall k ::
              (0 <= k < |walls| && !WallPasses(walls[k], entrance, rows, cols) &&
               (forall j :: 0 <= j < k ==> WallPasses(walls[j], entrance, rows, cols))) ==>
              r == Err(WallError(walls[k], entrance))
    decreases |walls|
  {
    if walls == [] then Ok([])
    else if !WallPasses(walls[0], entrance, rows, cols) then
      Err(WallError(walls[0], entrance))
    else
      var rest := CheckWalls(entrance, walls[1..], rows, cols);
      assert forall k :: 1 <= k < |walls| ==> walls[k] == walls[1..][k - 1];
      if rest.Err? then rest
      else
        DecodedCons(walls, rest.value);
        Ok([A1ToCoords(walls[0]).value] + rest.value)
  }

  /** Decoding the first label in front of the decoded rest decodes every
      label. */
  lemma DecodedCons(walls: seq<string>, rest: seq<Coords>)
    requires |walls| >= 1 && A1ToCoords(walls[0]).Ok? && |rest| == |walls| - 1
    requires forall k :: 0 <= k < |rest| ==> A1ToCoords(walls[1..][k]) == Ok(rest[k])
    ensures forall k :: 0 <= k < |walls| ==> A1ToCoords(walls[k]) == Ok(([A1ToCoords(walls[0]).value] + rest)[k])
  {
    forall k | 1 <= k < |walls| ensures A1ToCoords(walls[k]) == Ok(([A1ToCoords(walls[0]).value] + rest)[k]) {
      assert walls[1..][k - 1] == walls[k];
    }
  }

  /** Walls that all pass the loop can be marked on the grid. */
  lemma PassingWallsFit(entrance: string, walls: seq<string>, rows: int, cols: int)
    requires forall k :: 0 <= k < |walls| ==> WallPasses(walls[k], entrance, rows, cols)
    ensures WallsFit(walls, rows, cols) && AllDecode(walls)
  {
  }

  /** The maze a description names: every check before the exit count has
      passed, and exactly one last-row cell is reachable from the entrance. */
  ghost predicate ValidMaze(gridSize: string, entrance: string, walls: seq<string>) {
    var size := ParseGridSize(gridSize);
    && size.Ok?
    && LabelFits(entrance, size.value.0, size.value.1)
    && CheckWalls(entrance, walls, size.value.0, size.value.1).Ok?
    && WallsFit(walls, size.value.0, size.value.1)
    && |ReachableExits(MakeMaze(size.value.0, size.value.1, walls).value, A1ToCoords(entrance).value)| == 1
  }

  /** Validates a maze description. Failures, in order: the size's own
      error; an entrance that does not name a cell of the grid; the first
      wall that is the entrance label or does not name a cell of the grid;
      a number of reachable last-row cells other than one. */
  method ValidateMaze(gridSize: string, entrance: string, walls: seq<string>) returns (r: Result<Validated>)
    ensures ParseGridSize(gridSize).Err? ==> r == Err(ParseGridSize(gridSize).error)
    ensures ParseGridSize(gridSize).Ok? && !LabelFits(entrance, ParseGridSize(gridSize).value.0, ParseGridSize(gridSize).value.1) ==>
              r == Err(InvalidEntrance(entrance))
    ensures ParseGridSize(gridSize).Ok? && LabelFits(entrance, ParseGridSize(gridSize).value.0, ParseGridSize(gridSize).value.1) &&
            CheckWalls(entrance, walls, ParseGridSize(gridSize).value.0, ParseGridSize(gridSize).value.1).Err? ==>
              r == Err(CheckWalls(entrance, walls, ParseGridSize(gridSize).value.0, ParseGridSize(gridSize).value.1).error)
    ensures r.Ok? <==> ValidMaze(gridSize, entrance, walls)
    ensures ParseGridSize(gridSize).Ok? && LabelFits(entrance, ParseGridSize(gridSize).value.0, ParseGridSize(gridSize).value.1) &&
            CheckWalls(entrance, walls, ParseGridSize(gridSize).value.0, ParseGridSize(gridSize).value.1).Ok? &&
            !ValidMaze(gridSize, entrance, walls) ==>
              r == Err(InvalidExitPoint)
    ensures r.Err? && r.error == InvalidExitPoint ==>
              ParseGridSize(gridSize).Ok? && CheckWalls(entrance, walls, ParseGridSize(gridSize).value.0, ParseGridSize(gridSize).value.1).Ok?
    ensures r.Ok? ==> r.value == Validated(ParseGridSize(gridSize).value.0, ParseGridSize(gridSize).value.1,
                                           A1ToCoords(entrance).value,
                                           CheckWalls(entrance, walls, ParseGridSize(gridSize).value.0, ParseGridSize(gridSize).value.1).value)
  {
    var size := ParseGridSize(gridSize);
    if size.Err? {
      return Err(size.error);
    }
    var (rows, cols) := size.value;
    var entranceCoords := A1ToCoords(entrance);
    if entranceCoords.Err? || !AreValid(entranceCoords.value, rows, cols) {
      return Err(InvalidEntrance(entrance));
    }
    var wallsCoords := CheckWalls(entrance, walls, rows, cols);
    if wallsCoords.Err? {
      return Err(wallsCoords.error);
    }
    PassingWallsFit(entrance, walls, rows, cols);
    var maze := MakeMaze(rows, cols, walls);
    assert maze.Ok?;
    var count := CountReachableExits(maze.value, entranceCoords.value);
    if count != 1 {
      return Err(InvalidExitPoint);
    }
    return Ok(Validated(rows, cols, entranceCoords.value, wallsCoords.value));
  }

  /** Two different labels for the top-left cell: a leading zero in the row
      is accepted by the decoder. */
  lemma TwoLabelsOneCell()
    ensures "A01" != "A1"
    ensures A1ToCoords("A01") == A1ToCoords("A1") == Ok(Coords(0, 0))
  {
    assert "A01"[1] != "A1"[1];
    ExampleA1();
    DecodeLeadingZero();
  }

  /** The wall check compares labels as text: a wall written "A01" passes
      next to the entrance "A1" and becomes a wall on the entrance cell. */
  lemma EntranceComparedAsText()
    ensures CheckWalls("A1", ["A01"], 2, 2) == Ok([Coords(0, 0)])
  {
    TwoLabelsOneCell();
    OneWallPasses("A1", "A01", 2, 2);
  }

  lemma OneWallPasses(entrance: string, wall: string, rows: int, cols: int)
    requires WallPasses(wall, entrance, rows, cols)
    ensures CheckWalls(entrance, [wall], rows, cols) == Ok([A1ToCoords(wall).value])
  {
    assert [wall][1..] == [];
    assert CheckWalls(entrance, [wall][1..], rows, cols) == Ok([]);
    assert [A1ToCoords(wall).value] + [] == [A1ToCoords(wall).value];
  }

  /** The same label as the entrance is caught. */
  lemma EntranceLabelIsWall()
    ensures CheckWalls("A1", ["A1"], 2, 2) == Err(EntranceIsWall)
  {
    var same := ["A1"];
    assert !WallPasses(same[0], "A1", 2, 2);
  }

  lemma DecodeLeadingZero()
    ensures A1ToCoords("A01") == Ok(Coords(0, 0))
  {
    assert "01"[..1] == "0" && "0"[..0] == "";
    assert DecimalValue("01") == 1;
    assert ColumnNumber("A") == 1 by { assert "A"[..0] == ""; }
    assert "A" + "01" == "A01";
    DecodeOne("A", "01", 0, 0);
  }
}

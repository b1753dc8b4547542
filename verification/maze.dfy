/** Building the wall grid from wall labels, and its text rendering. */
module Maze {
  import opened MazeBase
  import opened Codec

  /** Every label up to and including the first that fails to decode names
      a cell inside a rows x cols grid; marking such a cell is what the
      builder does, and a cell outside would be an out-of-range index. */
  predicate WallsFit(walls: seq<string>, rows: int, cols: int) {
    forall k :: 0 <= k < |walls| && (forall j :: 0 <= j <= k ==> A1ToCoords(walls[j]).Ok?) ==>
      AreValid(A1ToCoords(walls[k]).value, rows, cols)
  }

  /** Every wall label decodes. */
  predicate AllDecode(walls: seq<string>) {
    forall k :: 0 <= k < |walls| ==> A1ToCoords(walls[k]).Ok?
  }

  /** The cells the decodable wall labels name. */
  function WallCells(walls: seq<string>): set<Coords> {
    set k | 0 <= k < |walls| && A1ToCoords(walls[k]).Ok? :: A1ToCoords(walls[k]).value
  }

  /** A rows x cols grid without walls. */
  function EmptyGrid(rows: nat, cols: nat): (g: Grid)
    ensures IsGridOf(g, rows, cols)
    ensures forall r, c :: 0 <= r < rows && 0 <= c < cols ==> !g[r][c]
  {
    seq(rows, _ => seq(cols, _ => false))
  }

  /** Marks the cells of `walls` in order, stopping at the first label that
      does not decode. */
  function MarkWalls(g: Grid, walls: seq<string>, ghost rows: int, ghost cols: int): (r: Result<Grid>)
    requires IsGridOf(g, rows, cols) && WallsFit(walls, rows, cols)
    ensures r.Ok? <==> AllDecode(walls)
    ensures r.Err? ==> r.error == BadInput
    ensures r.Ok? ==> IsGridOf(r.value, rows, cols)
    ensures r.Ok? ==> forall i, j :: 0 <= i < rows && 0 <= j < cols ==>
              (r.value[i][j] <==> g[i][j] || Coords(i, j) in WallCells(walls))
    decreases |walls|
  {
    if walls == [] then
      assert WallCells(walls) == {};
      Ok(g)
    else
      match A1ToCoords(walls[0])
      case Err(_) =>
        assert !AllDecode(walls);
        Err(BadInput)
      case Ok(c) =>
        WallsFitTail(walls, rows, cols);
        var marked := g[c.row := g[c.row][c.col := true]];
        MarkOne(g, c, rows, cols);
        WallCellsCons(walls);
        AllDecodeCons(walls);
        MarkWalls(marked, walls[1..], rows, cols)
  }

  /** The first label of fitting walls names a cell of the grid, and the
      remaining labels fit as well. */
  lemma WallsFitTail(walls: seq<string>, rows: int, cols: int)
    requires |walls| >= 1 && A1ToCoords(walls[0]).Ok? && WallsFit(walls, rows, cols)
    ensures AreValid(A1ToCoords(walls[0]).value, rows, cols)
    ensures WallsFit(walls[1..], rows, cols)
  {
    assert forall j :: 0 <= j <= 0 ==> A1ToCoords(walls[j]).Ok?;
    forall k | 0 <= k < |walls[1..]| && (forall j :: 0 <= j <= k ==> A1ToCoords(walls[1..][j]).Ok?)
      ensures AreValid(A1ToCoords(walls[1..][k]).value, rows, cols)
    {
      assert forall j :: 0 <= j <= k + 1 ==> A1ToCoords(walls[j]).Ok? by {
        forall j | 1 <= j <= k + 1 ensures A1ToCoords(walls[j]).Ok? {
          assert walls[j] == walls[1..][j - 1];
        }
      }
      assert walls[1..][k] == walls[k + 1];
    }
  }

  /** Marking one cell of the grid makes exactly that cell a wall. */
  lemma MarkOne(g: Grid, c: Coords, rows: int, cols: int)
    requires IsGridOf(g, rows, cols) && AreValid(c, rows, cols)
    ensures IsGridOf(g[c.row := g[c.row][c.col := true]], rows, cols)
    ensures forall i, j :: 0 <= i < rows && 0 <= j < cols ==>
              (g[c.row := g[c.row][c.col := true]][i][j] <==> g[i][j] || Coords(i, j) == c)
  {
  }

  lemma WallCellsCons(walls: seq<string>)
    requires |walls| >= 1 && A1ToCoords(walls[0]).Ok?
    ensures WallCells(walls) == {A1ToCoords(walls[0]).value} + WallCells(walls[1..])
  {
    var tail := walls[1..];
    forall c | c in WallCells(walls) ensures c in {A1ToCoords(walls[0]).value} + WallCells(tail) {
      var k :| 0 <= k < |walls| && A1ToCoords(walls[k]).Ok? && A1ToCoords(walls[k]).value == c;
      if k > 0 {
        assert tail[k - 1] == walls[k];
      }
    }
    forall c | c in WallCells(tail) ensures c in WallCells(walls) {
      var k :| 0 <= k < |tail| && A1ToCoords(tail[k]).Ok? && A1ToCoords(tail[k]).value == c;
      assert walls[k + 1] == tail[k];
    }
  }

  lemma AllDecodeCons(walls: seq<string>)
    requires |walls| >= 1 && A1ToCoords(walls[0]).Ok?
    ensures AllDecode(walls) <==> AllDecode(walls[1..])
  {
    if AllDecode(walls[1..]) {
      forall k | 1 <= k < |walls| ensures A1ToCoords(walls[k]).Ok? {
        assert walls[k] == walls[1..][k - 1];
      }
    }
  }

  /** The grid of a rows x cols maze: a cell is a wall exactly when some wall
      label names it. Fails with the shared bad-input error when a label
      does not decode. */
  function MakeMaze(rows: int, cols: int, walls: seq<string>): (r: Result<Grid>)
    requires rows >= 0 && cols >= 0 && WallsFit(walls, rows, cols)
    ensures r.Ok? <==> AllDecode(walls)
    ensures r.Err? ==> r.error == BadInput
    ensures r.Ok? ==> IsGridOf(r.value, rows, cols)
    ensures r.Ok? ==> forall i, j :: 0 <= i < rows && 0 <= j < cols ==>
              (r.value[i][j] <==> Coords(i, j) in WallCells(walls))
  {
    MarkWalls(EmptyGrid(rows, cols), walls, rows, cols)
  }

  /** One rendered row: "|X" for a wall, "|_" for an open cell, then a
      closing "|" and a line break. */
  function RenderRow(row: seq<bool>): (t: string)
    ensures |t| == 2 * |row| + 2
    ensures forall j :: 0 <= j < |row| ==> t[2 * j] == '|' && t[2 * j + 1] == (if row[j] then 'X' else '_')
    ensures t[|t| - 2] == '|' && t[|t| - 1] == '\n'
  {
    if row == [] then "|\n"
    else
      var rest := RenderRow(row[1..]);
      var t := (if row[0] then "|X" else "|_") + rest;
      forall j | 1 <= j < |row| ensures t[2 * j] == '|' && t[2 * j + 1] == (if row[j] then 'X' else '_') {
        var i := j - 1;
        assert row[j] == row[1..][i];
        assert t[2 * j] == rest[2 * i] && t[2 * j + 1] == rest[2 * i + 1];
      }
      t
  }

  /** The text form of a grid, one line per row. */
  function RenderMaze(g: Grid): (t: string)
    ensures t == [] <==> g == []
    ensures g != [] ==> |t| >= 2 && t[|t| - 1] == '\n'
  {
    if g == [] then "" else RenderRow(g[0]) + RenderMaze(g[1..])
  }

  /** The text has one line per row: exactly as many line breaks as rows. */
  lemma {:induction false} RenderMazeLines(g: Grid)
    ensures multiset(RenderMaze(g))['\n'] == |g|
    decreases |g|
  {
    if g != [] {
      RowNewline(g[0]);
      RenderMazeLines(g[1..]);
    }
  }

  /** Rendering distributes over stacking grids: the text of a grid split
      in two is the text of the top part followed by that of the bottom. */
  lemma {:induction false} RenderMazeConcat(a: Grid, b: Grid)
    ensures RenderMaze(a + b) == RenderMaze(a) + RenderMaze(b)
    decreases |a|
  {
    if a != [] {
      assert (a + b)[1..] == a[1..] + b;
      RenderMazeConcat(a[1..], b);
    } else {
      assert a + b == b;
    }
  }

  /** Rows are printed in grid order: row i comes after the text of the
      rows above it and before the text of the rows below it. */
  lemma RenderMazeOrder(g: Grid)
    ensures forall i :: 0 <= i < |g| ==>
              RenderMaze(g) == RenderMaze(g[..i]) + RenderRow(g[i]) + RenderMaze(g[i + 1..])
  {
    forall i | 0 <= i < |g|
      ensures RenderMaze(g) == RenderMaze(g[..i]) + RenderRow(g[i]) + RenderMaze(g[i + 1..])
    {
      RenderMazeAt(g, i);
    }
  }

  /** The text around one row. */
  lemma RenderMazeAt(g: Grid, i: int)
    requires 0 <= i < |g|
    ensures RenderMaze(g) == RenderMaze(g[..i]) + RenderRow(g[i]) + RenderMaze(g[i + 1..])
  {
    var rest := g[i..];
    assert g == g[..i] + rest;
    RenderMazeConcat(g[..i], rest);
    assert rest[0] == g[i] && rest[1..] == g[i + 1..];
    assert RenderMaze(rest) == RenderRow(g[i]) + RenderMaze(g[i + 1..]);
  }

  /** In a grid of `cols` columns every row takes `2 * cols + 2` characters,
      so with `RenderMazeOrder` row i occupies the i-th block of that width. */
  lemma {:induction false} RenderMazeLength(g: Grid, cols: nat)
    requires IsGridOf(g, |g|, cols)
    ensures |RenderMaze(g)| == |g| * (2 * cols + 2)
    decreases |g|
  {
    if g != [] {
      assert IsGridOf(g[1..], |g[1..]|, cols);
      RenderMazeLength(g[1..], cols);
      MulSucc(|g| - 1, 2 * cols + 2);
    }
  }

  /** Row i of a grid of `cols` columns is printed as the i-th block of
      `2 * cols + 2` characters. */
  lemma RenderMazeBlock(g: Grid, cols: nat, i: int)
    requires IsGridOf(g, |g|, cols) && 0 <= i < |g|
    ensures 0 <= i * (2 * cols + 2) && i * (2 * cols + 2) + 2 * cols + 2 <= |RenderMaze(g)|
    ensures RenderMaze(g)[i * (2 * cols + 2)..i * (2 * cols + 2) + 2 * cols + 2] == RenderRow(g[i])
  {
    RenderMazeOrder(g);
    assert IsGridOf(g[..i], i, cols);
    RenderMazeLength(g[..i], cols);
    var before, row, after := RenderMaze(g[..i]), RenderRow(g[i]), RenderMaze(g[i + 1..]);
    assert RenderMaze(g) == before + row + after;
    assert (before + row + after)[|before|..|before| + |row|] == row;
  }

  /** A rendered row holds exactly one line break. */
  lemma {:induction false} RowNewline(row: seq<bool>)
    ensures multiset(RenderRow(row))['\n'] == 1
  {
    if row != [] {
      RowNewline(row[1..]);
      var head := if row[0] then "|X" else "|_";
      assert RenderRow(row) == head + RenderRow(row[1..]);
      assert multiset(head)['\n'] == 0;
    }
  }

  /** Rendering loses nothing: two rows of equal width render alike only
      when they are equal. */
  lemma RenderRowInjective(a: seq<bool>, b: seq<bool>)
    requires |a| == |b| && RenderRow(a) == RenderRow(b)
    ensures a == b
  {
    forall j | 0 <= j < |a| ensures a[j] == b[j] {
      assert RenderRow(a)[2 * j + 1] == RenderRow(b)[2 * j + 1];
    }
  }

  /** Rendering loses nothing: grids of the same shape render alike only
      when they are equal. */
  lemma {:induction false} RenderMazeInjective(a: Grid, b: Grid, cols: int)
    requires IsGridOf(a, |a|, cols) && IsGridOf(b, |a|, cols)
    requires RenderMaze(a) == RenderMaze(b)
    ensures a == b
    decreases |a|
  {
    if a != [] {
      var ra, rb := RenderRow(a[0]), RenderRow(b[0]);
      var ta, tb := RenderMaze(a[1..]), RenderMaze(b[1..]);
      assert |ra| == |rb| == 2 * cols + 2;
      SameSplit(ra, ta, rb, tb);
      RenderRowInjective(a[0], b[0]);
      assert IsGridOf(a[1..], |a[1..]|, cols) && IsGridOf(b[1..], |a[1..]|, cols);
      RenderMazeInjective(a[1..], b[1..], cols);
      assert a == [a[0]] + a[1..] && b == [b[0]] + b[1..];
    }
  }

  /** Equal concatenations with equally long first parts have equal parts. */
  lemma SameSplit(a: string, b: string, c: string, d: string)
    requires |a| == |c| && a + b == c + d
    ensures a == c && b == d
  {
    assert a == (a + b)[..|a|] && c == (c + d)[..|c|];
    assert b == (a + b)[|a|..] && d == (c + d)[|c|..];
  }
}

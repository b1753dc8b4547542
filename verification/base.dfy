/** Shared vocabulary of the maze engine: cell coordinates, the error values
    the engine reports, a result wrapper, boolean grids and the four moves. */
module MazeBase {

  /** A 0-based cell position; a cell of a rows x cols maze has
      0 <= row < rows and 0 <= col < cols. */
  datatype Coords = Coords(row: int, col: int)

  /** The error values of the engine. `BadInput` is the shared "bad input"
      error; the validator's messages are reduced to their category (the
      offending label is kept where the message carries it). */
  datatype Error =
    | BadInput
    | InvalidGridSize
    | InvalidRows
    | InvalidCols
    | InvalidEntrance(entrance: string)
    | EntranceIsWall
    | InvalidWall(wall: string)
    | InvalidExitPoint
    | NoSolution
    | TimelimitReached

  /** The (value, error) pair of a Go call: either a value or an error, never both. */
  datatype Result<+T> = Ok(value: T) | Err(error: Error)

  datatype Option<+T> = None | Some(value: T)

  /** A maze grid: `g[row][col]` is true for a wall and false for an open cell. */
  type Grid = seq<seq<bool>>

  /** `g` has exactly `rows` rows of `cols` cells each. */
  predicate IsGridOf(g: Grid, rows: int, cols: int) {
    |g| == rows && forall r :: 0 <= r < |g| ==> |g[r]| == cols
  }

  /** A grid the solvers can work on: at least one row, all rows as long as the first. */
  predicate Rectangular(g: Grid) {
    |g| >= 1 && IsGridOf(g, |g|, |g[0]|)
  }

  /** The bounds test of the validator. */
  predicate AreValid(c: Coords, rows: int, cols: int) {
    0 <= c.row < rows && 0 <= c.col < cols
  }

  /** `c` is a cell of `g`. */
  predicate InGrid(g: Grid, c: Coords) {
    0 <= c.row < |g| && 0 <= c.col < |g[c.row]|
  }

  /** `c` is a cell of `g` that is not a wall. */
  predicate Open(g: Grid, c: Coords) {
    InGrid(g, c) && !g[c.row][c.col]
  }

  /** Index of the last row: reaching it is reaching the exit row. */
  function LastRow(g: Grid): int {
    |g| - 1
  }

  /** Every cell of a rectangular grid. */
  function AllCells(g: Grid): set<Coords>
    requires Rectangular(g)
  {
    set r, c | 0 <= r < |g| && 0 <= c < |g[0]| :: Coords(r, c)
  }

  /** For a grid of the given size, the validator's bounds test is
      membership of the grid. */
  lemma AreValidInGrid(g: Grid, c: Coords, rows: int, cols: int)
    requires IsGridOf(g, rows, cols)
    ensures AreValid(c, rows, cols) <==> InGrid(g, c)
  {
  }

  /** The cells of the first `rows` rows, `cols` per row. */
  ghost function CellBlock(rows: nat, cols: nat): set<Coords> {
    set r, c | 0 <= r < rows && 0 <= c < cols :: Coords(r, c)
  }

  /** The first `cols` cells of row `r`. */
  ghost function RowCells(r: int, cols: nat): set<Coords> {
    set c | 0 <= c < cols :: Coords(r, c)
  }

  lemma {:induction false} RowCellsSize(r: int, cols: nat)
    ensures |RowCells(r, cols)| == cols
  {
    if cols > 0 {
      RowCellsSize(r, cols - 1);
      assert RowCells(r, cols) == RowCells(r, cols - 1) + {Coords(r, cols - 1)};
    }
  }

  /** A block is the block one row shorter plus its last row. */
  lemma CellBlockSplit(rows: nat, cols: nat)
    requires rows > 0
    ensures CellBlock(rows, cols) == CellBlock(rows - 1, cols) + RowCells(rows - 1, cols)
    ensures CellBlock(rows - 1, cols) !! RowCells(rows - 1, cols)
  {
  }

  lemma {:induction false} CellBlockSize(rows: nat, cols: nat)
    ensures |CellBlock(rows, cols)| == rows * cols
  {
    if rows > 0 {
      var m: nat := rows - 1;
      CellBlockSize(m, cols);
      RowCellsSize(m, cols);
      CellBlockSplit(rows, cols);
      assert |CellBlock(rows, cols)| == m * cols + cols;
      MulSucc(m, cols);
    }
  }

  lemma MulSucc(m: nat, c: nat)
    ensures (m + 1) * c == m * c + c
  {
  }

  /** A rectangular grid has rows x cols cells. */
  lemma AllCellsSize(g: Grid)
    requires Rectangular(g)
    ensures |AllCells(g)| == |g| * |g[0]|
  {
    assert AllCells(g) == CellBlock(|g|, |g[0]|);
    CellBlockSize(|g|, |g[0]|);
  }

  lemma InGridInAllCells(g: Grid, c: Coords)
    requires Rectangular(g) && InGrid(g, c)
    ensures c in AllCells(g)
  {
    assert c == Coords(c.row, c.col);
  }

  /** The move order shared by every search: +row, -row, +col, -col. */
  const Deltas: seq<Coords> := [Coords(1, 0), Coords(-1, 0), Coords(0, 1), Coords(0, -1)]

  /** The neighbour of `c` in direction `d`. */
  function Step(c: Coords, d: nat): Coords
    requires d < |Deltas|
  {
    Coords(c.row + Deltas[d].row, c.col + Deltas[d].col)
  }

  function Abs(x: int): nat {
    if x < 0 then -x else x
  }

  /** `a` and `b` differ by one unit along exactly one axis. */
  predicate Adjacent(a: Coords, b: Coords) {
    Abs(a.row - b.row) + Abs(a.col - b.col) == 1
  }

  /** The direction leading from `a` to `b`, or 4 when `b` is not a neighbour of `a`. */
  function DirTo(a: Coords, b: Coords): (d: nat)
    ensures d <= |Deltas|
    ensures d < |Deltas| <==> Adjacent(a, b)
    ensures d < |Deltas| ==> Step(a, d) == b
  {
    if b == Step(a, 0) then 0
    else if b == Step(a, 1) then 1
    else if b == Step(a, 2) then 2
    else if b == Step(a, 3) then 3
    else 4
  }

  lemma StepIsAdjacent(c: Coords, d: nat)
    requires d < |Deltas|
    ensures Adjacent(c, Step(c, d))
    ensures DirTo(c, Step(c, d)) == d
  {
  }

  /** A subset is no larger than its superset. */
  lemma SubsetSize<T>(a: set<T>, b: set<T>)
    requires a <= b
    ensures |a| <= |b|
  {
    assert b == a + (b - a);
  }
}

# Maze engine model

A Dafny model of the maze engine of the maze-api service
(`maze-api/service/maze_validate.go` and `maze-api/service/maze_solve.go`).
The service stores a maze as a grid size such as `"8x8"`, an entrance label and a
list of wall labels. Labels are spreadsheet-style, e.g. `"A1"`. The engine:

- validates a maze description: size, entrance, walls, and exactly one reachable exit
  cell in the last row;
- solves a stored maze, either for the shortest route from the entrance to the last
  row (`"min"`) or for the longest simple path that ends at its first last-row cell
  (`"max"`).

Modules, in dependency order:

| file | module | models |
|---|---|---|
| base.dfy | `MazeBase` | `Coords`, the error values, `areValid`, the four neighbour deltas |
| codec.dfy | `Codec` | `A1ToCoords` and `CoordsToA1` (bijective base-26 columns, 1-based decimal rows) |
| gridsize.dfy | `GridSize` | `parseGridSize`, with `strings.Split` on `'x'` and `strconv.Atoi` |
| maze.dfy | `Maze` | `makeMaze`, and `fPrintMaze` as a pure grid-to-text function |
| paths.dfy | `Paths` | walks, reachability, routes and leaf paths: the reference notions the searches are measured against |
| reach.dfy | `Reach` | `countReachableExits` (breadth-first search) |
| validate.dfy | `Validate` | `ValidateMaze` |
| solvemin.dfy | `MinSearch` | `solveMin`: breadth-first search with back-links, plus path reconstruction |
| solvemax.dfy | `MaxSearch` | `solveMax`: explicit-stack depth-first search over simple paths |
| solve.dfy | `Solve` | `Solve`: the dispatcher and the mapping of the path to labels |

How the source is modelled:

- The `been` matrices become sets of cells.
- Go errors become an `Error` datatype carrying the category of the message.
- The deadline (`ctx.Done()`) becomes `fuel`: the number of deadline polls that find
  the deadline not yet passed.

Behaviours of the source that the model keeps, and proves as stated:

- An empty digit run is accepted: `"A"` decodes to row -1.
- A leading zero is accepted: `"A01"` decodes like `"A1"`.
- The validator compares wall labels with the entrance as text. A wall `"A01"` next to
  the entrance `"A1"` passes the wall check and walls off the entrance cell.
- The validator counts the entrance as an exit when it lies in the last row. In that
  case the longest-path search returns the entrance alone. The shortest-path search
  only accepts a route that ends at a cell other than the entrance.
- So validation and the shortest-path search disagree when the entrance lies in the
  last row. Take the maze `"2x2"` with entrance `"A2"` and walls `["B2"]`. The
  validator counts one reachable exit, the entrance itself, and accepts the maze.
  `"min"` then finds no solution, while `"max"` returns `["A2"]`.
  `Solve.ValidLastRowEntranceNoRoute` proves that every accepted maze with its
  entrance in the last row has no route at all. Elsewhere the shortest answer is
  never longer than the longest one (`Solve.MinNoLongerThanMax`).

## Model

| member | source | states |
|---|---|---|
| Codec.ScanLetters | maze-api/service/maze_validate.go:27-30 | the letter loop stops at the first character that is not an upper-case letter, having consumed only letters; the value it accumulates is the bijective base-26 value of the letters read so far |
| Codec.ScanDigits | maze-api/service/maze_validate.go:34-36 | the digit loop stops at the first character that is not a digit, having consumed only digits; the value it accumulates is the decimal value of the digit run read so far |
| Codec.DecodeSpec | maze-api/service/maze_validate.go:24-41 | decoding succeeds exactly when the label is a non-empty run of upper-case letters followed by a run of digits; the result is the letters' bijective base-26 value minus one as column and the digits' decimal value minus one as row |
| Codec.A1ToCoords | maze-api/service/maze_validate.go:31-39 | both decoding failures are the shared invalid-input error |
| Codec.ExampleEmptyDigitRun | maze-api/service/maze_validate.go:34-40 | `"A"`, with an empty digit run, decodes to row -1, column 0 |
| Codec.ExampleRejected | maze-api/service/maze_test.go:32-33 | `"a1"` and `"1a"` are rejected |
| Codec.ExampleA1 | maze-api/service/maze_test.go:20 | `"A1"` decodes to (0,0) and (0,0) encodes to `"A1"` |
| Codec.ExampleA123 | maze-api/service/maze_test.go:24 | `"A123"` decodes to (122,0) and encodes back |
| Codec.ExampleZ1 | maze-api/service/maze_test.go:26 | `"Z1"` decodes to (0,25) and encodes back |
| Codec.ExampleAA1 | maze-api/service/maze_test.go:27 | `"AA1"` decodes to (0,26) and encodes back |
| Codec.ExampleAZ1 | maze-api/service/maze_test.go:28 | `"AZ1"` decodes to (0,51) and encodes back |
| Codec.ExampleBA1 | maze-api/service/maze_test.go:29 | `"BA1"` decodes to (0,52) and encodes back |
| Codec.ExampleZZ1 | maze-api/service/maze_test.go:30 | `"ZZ1"` decodes to (0,701) and encodes back |
| Codec.ExampleAAA1 | maze-api/service/maze_test.go:31 | `"AAA1"` decodes to (0,702) and encodes back |
| Codec.ColumnLetters | maze-api/service/maze_validate.go:45-54 | for a positive column number the letters are a non-empty upper-case run whose bijective base-26 value is that number; otherwise they are empty |
| Codec.NatDigits | maze-api/service/maze_validate.go:55 | the decimal text of a natural number is a non-empty digit run with that value and no leading zero |
| Codec.Itoa | maze-api/service/maze_validate.go:55 | a non-negative number prints as a digit run with its value and no leading zero, so zero prints as `"0"`; a negative number prints as `'-'` followed by such a digit run for its magnitude |
| Codec.CoordsToA1 | maze-api/service/maze_validate.go:43-56 | for a row of at least -1, the label is the column letters of column + 1 followed by the decimal digits of row + 1, with no sign and no leading zero |
| Codec.EncodedParts | maze-api/service/maze_validate.go:43-56 | for a column of at least 0 and a row of at least -1, the label splits into a letter run whose base-26 value is column + 1 and a canonical digit run whose value is row + 1 |
| Codec.RoundTrip | maze-api/service/maze_validate.go:43-56 | decoding an encoded cell gives the cell back exactly when column ≥ 0 and row ≥ -1; any other cell encodes to text that does not decode |
| Codec.EncodedRejected | maze-api/service/maze_validate.go:43-56 | a cell with a negative column or a row below -1 encodes to text that does not decode |
| Codec.LabelRoundTrip | maze-api/service/maze_validate.go:24-56 | a decodable label encodes back to itself exactly when its digit run is canonical: non-empty, with no leading zero unless it is `"0"` |
| Codec.EncodeSplit | maze-api/service/maze_validate.go:43-56 | a label that splits into letters and digits encodes back to its letters followed by the printing of its digits' value |
| Codec.CanonicalReencodes | maze-api/service/maze_validate.go:24-56 | a label with a canonical digit run encodes back to itself |
| Codec.NonCanonicalChanges | maze-api/service/maze_validate.go:24-56 | a label whose digit run is empty or has a leading zero encodes to different text |
| GridSize.Split | maze-api/service/maze_validate.go:63 | the pieces number one more than the separators, none contains the separator, and joined with the separator they give the input back |
| GridSize.SplitJoin | maze-api/service/maze_validate.go:63 | splitting undoes joining when no part contains the separator |
| GridSize.Atoi | maze-api/service/maze_validate.go:68-76 | a token is an integer exactly when it is a non-empty digit run, optionally after one `'+'` or `'-'`; a `'-'` negates the value of the digits; otherwise the value is that of the digits after an optional `'+'`, leading zeros included |
| GridSize.AtoiItoa | maze-api/service/maze_validate.go:68-76 | parsing the printed form of any integer gives it back; an empty token is not an integer |
| GridSize.ParseGridSize | maze-api/service/maze_validate.go:62-79 | fails with the grid-size error exactly when the text does not hold exactly one `'x'`; otherwise it fails with the rows error when the text before the `'x'` is not an integer, then with the cols error when the text after it is not, and else yields both values |
| GridSize.ParseExample8x8 | maze-api/service/maze_test.go:165 | `"8x8"` parses to 8 rows and 8 columns |
| GridSize.ParseExampleNoSeparator | maze-api/service/maze_test.go:180-188 | `"4-4"` fails with the grid-size error |
| GridSize.ParseExampleMissingRows | maze-api/service/maze_test.go:189-197 | `"x4"` fails with the rows error |
| GridSize.ParseExampleMissingCols | maze-api/service/maze_test.go:198-206 | `"4x"` fails with the cols error |
| Maze.EmptyGrid | maze-api/service/maze_validate.go:83-86 | a rows × cols grid with every cell open |
| Maze.MarkWalls | maze-api/service/maze_validate.go:88-94 | succeeds exactly when every label decodes, and then a cell is a wall exactly when it was one before or some label names it; the shape is kept |
| Maze.MakeMaze | maze-api/service/maze_validate.go:82-97 | succeeds exactly when every wall label decodes; the grid is rows × cols and a cell is a wall exactly when some label names it; failure is the invalid-input error |
| Maze.RenderRow | maze-api/service/maze_validate.go:105-113 | each cell renders as a bar followed by `'X'` for a wall and `'_'` for an open cell, and the line ends with a bar and a line break |
| Maze.RenderRowInjective | maze-api/service/maze_validate.go:105-113 | two rows of equal width render alike only when they are equal |
| Maze.RowNewline | maze-api/service/maze_validate.go:105-113 | a rendered row holds exactly one line break |
| Maze.RenderMaze | maze-api/service/maze_validate.go:104-115 | the text is empty exactly when the grid has no rows; otherwise it ends with a line break |
| Maze.RenderMazeConcat | maze-api/service/maze_validate.go:104-115 | the text of two grids stacked is the text of the top one followed by that of the bottom one |
| Maze.RenderMazeOrder | maze-api/service/maze_validate.go:104-115 | rows are printed in grid order: the text is the rows above row i, then row i, then the rows below it |
| Maze.RenderMazeLength | maze-api/service/maze_validate.go:104-115 | a grid of `cols` columns prints as `2 * cols + 2` characters per row |
| Maze.RenderMazeBlock | maze-api/service/maze_validate.go:104-115 | in a grid of `cols` columns, row i is the i-th block of `2 * cols + 2` characters |
| Maze.RenderMazeLines | maze-api/service/maze_validate.go:104-115 | the text holds exactly one line break per row |
| Maze.RenderMazeInjective | maze-api/service/maze_validate.go:104-115 | two grids of the same shape render alike only when they are equal |
| MazeBase.AreValidInGrid | maze-api/service/maze_validate.go:58-60 | the bounds test holds exactly when the cell lies in a grid of that many rows and columns |
| Paths.ClosedHoldsReachable | maze-api/service/maze_validate.go:163-164 | a set of cells that holds the entrance and every open neighbour of its members holds every reachable cell |
| Reach.EnqueueNeighbours | maze-api/service/maze_validate.go:192-210 | afterwards every open neighbour of the current cell is visited, only open neighbours were added, the queue and the visited set only grow, and the visited cells are exactly the queued ones, with no repeats |
| Reach.Dequeue | maze-api/service/maze_validate.go:180-210 | after one more entry is taken, the entries taken so far have every open neighbour visited, the queue only grows, and the count is the number of distinct last-row cells among the entries taken |
| Reach.CountReachableExits | maze-api/service/maze_validate.go:165-214 | the count is the number of distinct last-row cells reachable from the entrance through open cells, the entrance included when it lies in the last row |
| Validate.CheckWalls | maze-api/service/maze_validate.go:131-142 | succeeds exactly when every wall label differs from the entrance label and names a cell inside the grid, yielding the decoded cells in order; otherwise the first failing label decides the error: entrance-is-wall when it equals the entrance label, invalid-wall otherwise |
| Validate.PassingWallsFit | maze-api/service/maze_validate.go:144-148 | once the wall loop has passed, building the grid cannot fail |
| Validate.ValidateMaze | maze-api/service/maze_validate.go:117-161 | the first failing check decides the error, in the order grid size, entrance, walls, exit count; once size, entrance and walls pass, a number of reachable last-row cells other than one fails with the invalid-exit-point error; the description is accepted exactly when all checks pass and exactly one last-row cell is reachable; on success it yields the size, the entrance cell and the wall cells in label order |
| Validate.TwoLabelsOneCell | maze-api/service/maze_validate.go:34-36 | `"A01"` and `"A1"` are different texts naming the same cell |
| Validate.EntranceComparedAsText | maze-api/service/maze_validate.go:132-141 | with entrance `"A1"`, the wall `"A01"` passes the wall check and decodes to the entrance cell |
| Validate.EntranceLabelIsWall | maze-api/service/maze_validate.go:132-134 | a wall label equal to the entrance label gives the entrance-is-wall error |
| MinSearch.PathTo | maze-api/service/maze_solve.go:196-201 | the path followed back from an entry has that entry's length plus one cells and ends at its cell |
| MinSearch.Rebuild | maze-api/service/maze_solve.go:196-203 | writing each cell at the index of its recorded length while following back-links gives exactly the back-link path |
| MinSearch.PathIsRoute | maze-api/service/maze_solve.go:179-191 | the path rebuilt from the first last-row entry is a simple walk from the entrance to a last-row cell other than the entrance, with no cell strictly between its ends in the last row (the entrance itself may lie there) |
| MinSearch.NoShorterRoute | maze-api/service/maze_solve.go:129-131 | when the first last-row cell is queued, no route from the entrance to the last row is shorter than the recorded length plus one |
| MinSearch.NoRoute | maze-api/service/maze_solve.go:152-194 | once every queue entry is expanded and none after the entrance lies in the last row, no route exists |
| MinSearch.TryDirection | maze-api/service/maze_solve.go:170-185 | the neighbour in one direction is queued, with a back-link to the current entry and length one more, exactly when it is open and not yet visited, and it is then marked visited; otherwise queue and visited set are unchanged |
| MinSearch.ExpandMin | maze-api/service/maze_solve.go:166-193 | expanding an entry keeps the queue invariant (back-links to earlier entries, lengths one more than the linked entry, lengths non-decreasing, each cell queued once) and either queues every open neighbour or stops at the first last-row cell queued |
| MinSearch.FirstExitShortest | maze-api/service/maze_solve.go:187-190 | the first last-row cell queued ends a route no longer than any other |
| MinSearch.SearchStep | maze-api/service/maze_solve.go:160-193 | one round of the loop either queues a last-row cell that ends a shortest route, or leaves the entries up to the current one expanded with no exit queued |
| MinSearch.SearchMin | maze-api/service/maze_solve.go:150-194 | keeps the queue invariant; with no successful poll left it times out at once, and a timeout needs fewer polls than the grid has cells; when the deadline is not hit, it either finds a last-row entry with no route shorter than its length plus one, or shows no route exists |
| MinSearch.SolveMin | maze-api/service/maze_solve.go:132-206 | a result is a shortest route: a simple walk from the entrance through open cells to a last-row cell other than the entrance, with no cell strictly between its ends in the last row (the entrance itself may lie there); no-solution means no such route exists; an expired deadline at the first poll gives the time-limit error, and a timeout needs fewer polls than the grid has cells |
| MaxSearch.Visit | maze-api/service/maze_solve.go:74-91 | marks the top visited; at a last-row top it keeps the stack as the result when strictly longer than the result so far, and tries no direction from there |
| MaxSearch.Push | maze-api/service/maze_solve.go:100-112 | pushing an open, unvisited neighbour keeps the stack a simple walk from the entrance whose lower cells are visited, and every leaf path is still either no longer than the result or ahead of the search |
| MaxSearch.Pop | maze-api/service/maze_solve.go:116-120 | popping removes the top and unmarks it, keeping the stack invariant and the account of every leaf path |
| MaxSearch.NextDirection | maze-api/service/maze_solve.go:94-114 | the first direction from the given one on whose neighbour is open and not on the path, or the number of directions when there is none |
| MaxSearch.NextDirectionIs | maze-api/service/maze_solve.go:94-114 | a direction with those properties is the one `NextDirection` gives |
| MaxSearch.FindDirection | maze-api/service/maze_solve.go:94-114 | the direction loop stops at the first direction whose neighbour is open and not on the path, having rejected every direction before it |
| MaxSearch.SkipRejected | maze-api/service/maze_solve.go:94-99 | skipping directions whose neighbour is a wall, outside the grid or on the path keeps every leaf path either accounted for or still ahead of the search |
| MaxSearch.Advance | maze-api/service/maze_solve.go:93-120 | one step pushes the neighbour in the first direction, from the top's next one on, that is open and not on the path, leaving the visited set alone; when there is none it pops the top and unmarks it; the stack invariant is kept |
| MaxSearch.SolveMax | maze-api/service/maze_solve.go:46-127 | a result is a longest leaf path: a simple walk from the entrance through open cells whose only last-row cell is its last; no-solution means no leaf path exists; an expired deadline at the first poll gives the time-limit error |
| Solve.Solve | maze-api/service/maze_solve.go:9-41 | an undecodable wall, then an undecodable entrance, then a `steps` other than `"min"` and `"max"` fail with invalid input; with decodable walls and entrance and a valid `steps` the search runs, so the result is an answer, no-solution or a timeout, and a timeout at once when no poll succeeds; the answer is the labels of a shortest simple route with no cell strictly between its ends in the last row (`"min"`) or of a longest leaf path (`"max"`); a `"min"` timeout needs fewer polls than rows × cols |
| Solve.Labels | maze-api/service/maze_solve.go:35-38 | one label per cell of the path |
| Solve.LabelsDecode | maze-api/service/maze_solve.go:35-38 | each label of a path inside the grid decodes back to its cell |
| Solve.AnswerReadsBack | maze-api/service/maze_solve.go:35-40 | the labels of an answer decode, in order, to a walk from the entrance |
| Solve.MinNoLongerThanMax | maze-api/service/maze_solve.go:46-206 | with the entrance outside the last row, a simple route that meets the last row only at its end is a leaf path, so it is no longer than a longest leaf path |
| Solve.RouteFromLastRow | maze-api/service/maze_validate.go:180-187 | with the entrance in the last row, any route gives a second reachable last-row cell besides the entrance |
| Solve.LastRowEntranceNoRoute | maze-api/service/maze_solve.go:179-191 | with the entrance in the last row and exactly one reachable last-row cell, no route exists |
| Solve.ValidLastRowEntranceNoRoute | maze-api/service/maze_validate.go:151-158 | a maze that validation accepts with its entrance in the last row has no route, so `"min"` finds no solution |
| Solve.EntranceInLastRow | maze-api/service/maze_solve.go:81-91 | with the entrance in the last row, the entrance alone is the only leaf path, and every route has at least two cells |

## Left out

- HTTP handlers, persistence, authentication and process start-up are outside the maze engine and are not part of this model.
- `printMaze` writes to standard output. Only the text it produces is modelled (`RenderMaze`); the writer is not.
- Codec.A1ToCoords: the function's own contract says only what a failure is. The full decoding contract is in `Codec.DecodeSpec`, so that the function stays cheap to unfold. The zero `Coords{}` returned next to an error is not modelled, because `Err` carries no cell.
- Error texts: the `"invalid rows value: "` and `"invalid cols value: "` messages end with the text of the `strconv` error. Only the error category is kept, and invalid entrance and invalid wall carry the offending label.
- GridSize.Atoi: Go's `int` range limit is not modelled. A token of digits that is too large to hold is accepted, where the source reports a range error.
- Go `int` overflow is not modelled anywhere. Decoding a very long label wraps around in the source but not in the model.
- Labels are sequences of characters, while the source indexes bytes. The two agree on the ASCII letters and digits the codec accepts. A non-ASCII character is rejected by both, though at a different index.
- `makeMaze` with a wall label that decodes to a cell outside the grid panics in the source. `MakeMaze` requires every label that is reached, i.e. that decodes and has no undecodable label before it, to lie inside the grid.
- Solve.Solve requires every marked wall to lie inside the grid, because the source builds the grid first and panics on a wall outside it. For `"min"` and `"max"` it also requires at least one row and a decodable entrance inside the grid, because the searches index the grid there. Any other `steps` fails with invalid input before the grid is indexed. It requires a non-negative column count even with zero rows, where the source would not allocate a row. A caller passes a maze that `ValidateMaze` accepted.
- The makeMaze error branch inside `ValidateMaze` (maze-api/service/maze_validate.go:145-148) cannot be taken after the wall loop; `PassingWallsFit` proves this, so the model has no such branch.
- The error result of `countReachableExits` is always nil, so `CountReachableExits` returns the count only.
- Both searches test a neighbour with `Open` (in the grid and not a wall). For a rectangular grid this is the same test as the source's bounds check followed by the wall lookup.
- Solve.Solve: for `"max"`, as for `MaxSearch.SolveMax` below, no bound on the number of polls before a timeout is stated.
- Solve.Solve: which of several shortest routes or longest leaf paths is returned is not stated, as for `MinSearch.SolveMin` and `MaxSearch.SolveMax` below.
- MaxSearch.SolveMax: there is no bound on the number of polls before a timeout, unlike `MinSearch.SolveMin`, because the depth-first search may take exponentially many steps. Which of several longest leaf paths is returned (the first the search meets) is not stated; the contract says only that the result is a longest one.
- MinSearch.SolveMin: which of several shortest routes is returned, as fixed by the neighbour order, is not stated; the contract says only that the result is a shortest one.
- Real time, cancellation and `context.Context` are replaced by the fuel count of polls.

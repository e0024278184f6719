# Maze generator: verified model of the grid, the four generators and the run-file decoder

This project models the sequential core of an animated maze generator:

- **The maze grid** (`Mazes.Maze`, on top of the value vocabulary in `Grid`).
  - A maze of `rows` x `cols` cells is a boolean matrix of `2*rows+1` rows of `2*cols+1` entries.
  - Entries where both indices are odd are cell centres, and they are always open.
  - Every other entry is a wall slot or a corner post.
  - The class keeps the matrix and the two dimensions as fields. Its methods rebuild or flip that matrix, as the source's member functions do.
- **The four generators**, each proved for every answer of the random oracle (`Solver.Irand`, `Solver.Shuffle`):
  - recursive backtracking (`Backtracking`);
  - the growing tree (`GrowingTrees`);
  - Eller's algorithm (`Ellers`);
  - recursive division (`Division`).
- **The run-file decoder** (`RunFile`).
  - It reads one integer per line, in the manner of `std::stoi`, and reverses the list.
  - It then decodes groups of four values (algorithm code, rows, cols, delay) into run records, all or nothing.

What is proved, in the system's own terms:

- Building a maze gives a matrix that is open exactly at the cell centres.
- `toggleWall` flips exactly one slot and is its own inverse. A slot is shared by the two cells it separates.
- `isVisited` is "off the border or the neighbour has an open slot".
- `removeWalls` opens every interior entry and keeps the frame.
- The text dump reads back to the matrix.
- Backtracking, the growing tree and Eller's change only wall slots between two cells: the frame, the corner posts and the centres stay as they were. From a fresh matrix each of them carves exactly `rows*cols - 1` such walls, and with two or more cells, backtracking and the growing tree also leave every cell opened. That the carved walls connect every pair of cells, and so form a spanning tree, is not proved (see "Left out").
- The growing tree's loop runs exactly `2*rows*cols - 1` times and never lists a cell twice.
- Eller's set maps stay consistent, and its last row ends in one set.
- Recursive division flips exactly `width*height` distinct wall slots inside its box (never a corner post), each exactly once.
- The run-file decoder is exactly the all-or-nothing decoding function. That function inverts the encoder on every valid list of runs.

The model follows the code:
- a run record is read in the order algorithm code, rows, cols, delay (`src/Interface.cpp:146-182`);
- `pickOrientation` chooses vertical when the width is the larger extent (`src/MazeSolver.cpp:245-247`).

Randomness is an oracle whose only promise is its range. The renderer, the window, the frame delays and the threads are outside the model.

## Model

| member | source | states |
|---|---|---|
| Grid.SlotBetween | src/Maze.cpp:48-74 | the slot flipped for a cell and direction lies halfway between the centres of the cell and its neighbour, and has exactly one even index, so it is a wall slot and never a centre or a post |
| Grid.SlotShared | src/Maze.cpp:52-67 | `Right` at (r,c) and `Left` at (r,c+1), and `Down` at (r,c) and `Up` at (r+1,c), address the same slot |
| Grid.ToggledTwice | src/Maze.cpp:52-67 | flipping the same entry twice restores the matrix, so two identical `toggleWall` calls cancel |
| Grid.NeighbourDoneCases | src/Maze.cpp:87-103 | per direction, the neighbour is done exactly when the move crosses the border (row 0, row rows-1, col 0, col cols-1) or the neighbour has an open slot |
| Grid.FreshGridFacts | src/Maze.cpp:27-35 | the freshly built matrix is well formed, has no open wall, and has no cell with an open slot |
| Grid.CarveEffect | src/MazeSolver.cpp:66-68 | carving a closed slot to an in-grid neighbour keeps the shape and every open entry, opens exactly that slot, opens exactly the two cells it joins, and adds exactly those two to the visited cells |
| Grid.CarveCount | src/MazeSolver.cpp:137-139 | carving toward an unopened neighbour finds the slot closed, adds one open wall, and adds one visited cell (two if the carving cell was itself unopened) |
| Grid.SettledCoversGrid | src/MazeSolver.cpp:65-73 | if every opened cell has no unopened neighbour and some cell is opened, every cell of the maze is opened |
| Grid.ToggleInner | src/Maze.cpp:48-78 | toggling the slot between two in-grid neighbours changes the matrix only at that slot, which is off the frame with exactly one odd index |
| Grid.FreshInnerWalls | src/Maze.cpp:26-35 | from the matrix `initialize` builds, a matrix changed only at inner slots has every open wall between two cells |
| Grid.TreeFromFresh | src/MazeSolver.cpp:57-84 | a matrix in which every opened cell is settled, the start is settled, and each new visited cell is paid for by one wall has exactly `rows*cols - 1` open walls, and with two or more cells every cell is opened |
| Mazes.Maze.constructor | src/Maze.cpp:6-8 | the new maze has the given dimensions and the fresh matrix |
| Mazes.Maze.Initialize | src/Maze.cpp:27-35 | the matrix is rebuilt as `2*rows+1` rows of `2*cols+1` entries, open exactly at (odd, odd), with nothing of the previous matrix left |
| Mazes.Maze.Resize | src/Maze.cpp:21-25 | the dimensions are replaced and the matrix is rebuilt fresh for them |
| Mazes.Maze.Assign | src/Maze.cpp:37-46 | self-assignment changes nothing; otherwise the dimensions are copied and only the top-left block the size of the other matrix is overwritten |
| Mazes.Overwritten | src/Maze.cpp:41-43 | the result keeps the shape of the target, equals the source matrix inside the copied block and the target everywhere else |
| Mazes.OverwrittenKeepsStaleShape | src/Maze.cpp:37-46 | copying a 1x1 maze over a 2x2 one leaves a matrix that is not the shape of a 1x1 maze |
| Mazes.LargerOtherOverruns | src/Maze.cpp:41-43 | when the other maze has more rows or more columns, the copy loop's row or column range passes the end of this matrix |
| Mazes.Maze.AssignCopy | src/Maze.cpp:37-46 | the target ends with the dimensions and the exact matrix of the source |
| Mazes.Maze.ToggleWall | src/Maze.cpp:48-78 | `None` leaves the matrix unchanged; any other direction flips exactly the slot between the cell and its neighbour and changes nothing else |
| Mazes.Maze.HasOpenSlot | src/Maze.cpp:80-85 | true exactly when one of the four slots of the cell is open |
| Mazes.Maze.IsVisited | src/Maze.cpp:87-103 | false for `None`; otherwise true exactly when the move crosses the border or the neighbour has an open slot |
| Mazes.Maze.GetSize | src/Maze.cpp:105-107 | the size is (rows, cols) |
| Mazes.Maze.RemoveWalls | src/Maze.cpp:109-115 | the new matrix is the open field of the old one, with the dimensions kept |
| Mazes.OpenFieldFacts | src/Maze.cpp:109-115 | the open field keeps the shape and every open entry, opens every interior entry with an even index, keeps the outer frame as it was, and leaves every cell settled |
| Mazes.WriteRow | src/Maze.cpp:12-13 | a row is written as its first `w` entries, one `0`/`1` character each |
| Mazes.ReadWriteRows | src/Maze.cpp:10-19 | reading the dump back line by line gives the matrix again |
| Mazes.Maze.ToText | src/Maze.cpp:10-19 | the dump uses only `0`, `1` and newline, ends with a newline, and reads back to the maze's matrix |
| Solver.ToU32 | src/MazeSolver.cpp:11-12 | the conversion to `unsigned int` is congruent modulo 2^32 and is the identity on values in range |
| Solver.ChangePosition | src/MazeSolver.cpp:11-30 | the position is the neighbour's row and column, each taken modulo 2^32, and exactly the neighbour when it is in range |
| Solver.Irand | src/MazeSolver.cpp:97-103 | the draw lies in `[min, max]` and is `min` when the bounds are equal |
| Solver.Shuffle | src/MazeSolver.cpp:63 | the result is a permutation of its input |
| Solver.ShuffledDirs | src/MazeSolver.cpp:58-63 | a permutation of `[Up, Left, Down, Right]` has four entries and lists exactly the four real directions |
| Solver.HasUnvisitedNeighbors | src/MazeSolver.cpp:105-115 | true exactly when some direction is not visited, and exactly when the cell is not settled |
| Solver.GetCell | src/MazeSolver.cpp:117-119 | the picked entry is an element of the non-empty list |
| Solver.Find | src/MazeSolver.cpp:146 | the index of the first occurrence, or the length exactly when the value is absent |
| Solver.PickOrientation | src/MazeSolver.cpp:245-247 | vertical when the width exceeds the height, horizontal when it is smaller |
| Backtracking.RecursiveBacktrack | src/MazeSolver.cpp:57-84 | from any cell the pass only opens entries, changes only wall slots between two cells, leaves the start and every newly opened cell settled, and pays for each newly visited cell with one wall |
| Backtracking.CarveKeepsInner | src/MazeSolver.cpp:65-71 | the carve towards an unvisited in-grid neighbour and the recursive call after it together change only inner slots |
| Backtracking.AfterVisit | src/MazeSolver.cpp:66-71 | after carving toward an unopened neighbour and recursing there, the loop's progress holds for one more direction |
| Backtracking.ProgressEnd | src/MazeSolver.cpp:65-73 | once all four directions are tried, the cell is settled and the bookkeeping of the pass holds |
| Backtracking.UnvisitedShrinks | src/MazeSolver.cpp:66-71 | a recursive call is made only after the set of unopened cells has strictly shrunk, so the recursion terminates |
| Backtracking.GenerateBacktrack | src/Main.cpp:27 | from (0,0) with no incoming direction on a fresh maze, exactly `rows*cols - 1` walls are carved, every open wall lies between two cells (frame and posts stay closed), and with two or more cells every cell is opened |
| GrowingTrees.GrowingTree | src/MazeSolver.cpp:121-152 | the loop only opens entries, changes only wall slots between two cells, settles its random start and every opened cell, and runs `2*carves + 1` times; from a fresh maze that is exactly `rows*cols - 1` carves, all between cells, `2*rows*cols - 1` iterations and, with two or more cells, every cell opened |
| GrowingTrees.GrowStep | src/MazeSolver.cpp:125-151 | picks entry `i`; either flips exactly the slot from that cell towards an untouched neighbour in `d` and appends the entered cell with `d` as its direction, or, when the cell is settled, leaves the matrix alone and removes exactly entry `i` |
| GrowingTrees.CarveAny | src/MazeSolver.cpp:129-143 | for an unsettled cell the inner loop carves exactly one slot, in a direction whose neighbour was unopened |
| GrowingTrees.TreeCarve | src/MazeSolver.cpp:137-139 | a carve and an append keep the list distinct, in the maze and consistent with the matrix, and strictly shrink the unopened cells |
| GrowingTrees.TreeErase | src/MazeSolver.cpp:145-146 | erasing a settled entry keeps every invariant of the loop |
| GrowingTrees.CarveDistinct | src/MazeSolver.cpp:139 | the appended cell was unopened, so it is not yet in the list |
| GrowingTrees.EraseDistinct | src/MazeSolver.cpp:146 | erasing one entry keeps the list free of repeats |
| GrowingTrees.TreeDone | src/MazeSolver.cpp:125-152 | when the list empties, the carve count and iteration count give the final wall count and iteration bound |
| GrowingTrees.FreshOutcome | src/MazeSolver.cpp:121-152 | from a fresh matrix, a settled start with settled opened cells and paid-for visits has `rows*cols - 1` walls and every cell opened |
| Ellers.MergeSets | src/MazeSolver.cpp:171-178 | key `set2` is removed, `set1` becomes its old cells followed by those of `set2`, every column of `set2` maps to `set1`, and everything else is unchanged |
| Ellers.MergeKeeps | src/MazeSolver.cpp:171-178 | the merge keeps the column map and the set map consistent and removes exactly one set |
| Ellers.SeedRow | src/MazeSolver.cpp:185-195 | every column gets a set; carried columns keep their id, new columns get fresh singleton sets numbered from `setCounter`, and the counts of new sets, new columns and used ids agree |
| Ellers.SeedStep | src/MazeSolver.cpp:186-193 | a fresh id never names an existing set |
| Ellers.HorizontalPass | src/MazeSolver.cpp:197-210 | pass-level outcome: it changes only the row's own matrix line, and there only wall slots between two cells, and keeps the maps consistent; when that line starts closed, each merge opens one wall; on the last row one set remains. The per-wall rule is the contract of its loop body, `Ellers.SweepStep` |
| Ellers.SweepStep | src/MazeSolver.cpp:198-209 | one column step keeps the pass invariant; it either carves the wall between `col` and `col + 1`, only when their sets differ, and merges the right set into the left as `mergeSets` does, or changes nothing; on the last row differing sets are always joined |
| Ellers.JoinGrid | src/MazeSolver.cpp:199 | carving to the right touches only the row's line and, on a closed line, adds exactly one open wall |
| Ellers.SweptDone | src/MazeSolver.cpp:203-209 | on the last row every column ends in the set of column 0, so one set remains |
| Ellers.FirstDraw | src/MazeSolver.cpp:216-219 | the first draw of a set finds its column's downward slot closed |
| Ellers.DrawStep | src/MazeSolver.cpp:219-225 | a downward carve seeds the next row's maps with that column under the set's key and keeps them consistent |
| Ellers.DrawDown | src/MazeSolver.cpp:217-227 | one draw keeps the carry invariant, and a set whose turn it is ends with at least one carried column |
| Ellers.CarryDown | src/MazeSolver.cpp:215-228 | all draws of one set keep the invariant and, into an unopened row, carry that set down |
| Ellers.VerticalPass | src/MazeSolver.cpp:212-229 | it changes only the line below the row, and there only wall slots between two cells, and opens one wall per carried column; the carried columns keep their set id and are exactly the newly opened cells of the next row; the new maps are consistent, and into an unopened row every set is carried down |
| Ellers.SeedAndJoin | src/MazeSolver.cpp:185-210 | seeding and joining one row leaves `open walls + live sets == (row+1)*cols` from a fresh grid, and one set on the last row |
| Ellers.EllersRow | src/MazeSolver.cpp:184-232 | one pass of the outer loop keeps the loop invariant for the next row |
| Ellers.RowArithmetic | src/MazeSolver.cpp:212-232 | an arithmetic helper of `Ellers.SeedAndJoin`: the row invariant `walls + live sets == row*cols` carries over to the next row |
| Ellers.Ellers | src/MazeSolver.cpp:180-242 | changes only wall slots between two cells; from a fresh maze with at least one row, the matrix only gains open entries, and exactly `rows*cols - 1` walls are opened, all between two cells |
| Division.FlippedAdd | src/MazeSolver.cpp:258-259 | flipping one more slot that was not flipped yet extends the flipped set by it |
| Division.FlippedUnion | src/MazeSolver.cpp:265-266 | flipping two disjoint sets one after the other is flipping their union |
| Division.VLineFacts | src/MazeSolver.cpp:255-261 | a vertical slice flips one slot per row of its span except the gap, all in the slice's wall column (even) on cell lines (odd), so none is a corner post |
| Division.HLineFacts | src/MazeSolver.cpp:270-276 | a horizontal slice flips one slot per column of its span except the gap, all on the slice's wall line (even) in cell columns (odd), so none is a corner post |
| Division.VLineParity | src/MazeSolver.cpp:257-261 | every slot a vertical slice flips has an odd matrix row and an even matrix column |
| Division.HLineParity | src/MazeSolver.cpp:272-276 | every slot a horizontal slice flips has an even matrix row and an odd matrix column |
| Division.FlipSlot | src/MazeSolver.cpp:258-259 | flipping a slot not yet flipped adds exactly it to the flipped set |
| Division.VerticalSlice | src/MazeSolver.cpp:257-261 | the loop flips exactly the slots of the vertical line, skipping the gap row |
| Division.HorizontalSlice | src/MazeSolver.cpp:272-276 | the loop flips exactly the slots of the horizontal line, skipping the gap column |
| Division.VerticalParts | src/MazeSolver.cpp:255-266 | the slice and the two subregions flip disjoint slot sets whose union fills the parent box with `width*height` slots |
| Division.HorizontalParts | src/MazeSolver.cpp:270-281 | the same for a horizontal slice and the regions above and below it |
| Division.VerticalDivide | src/MazeSolver.cpp:253-266 | a vertical step and its two recursive calls flip `width*height` distinct wall slots (one odd index each), all inside the box |
| Division.HorizontalDivide | src/MazeSolver.cpp:268-282 | a horizontal step and its two recursive calls flip `width*height` distinct wall slots (one odd index each), all inside the box |
| Division.RecursiveDivision | src/MazeSolver.cpp:249-283 | the matrix ends as the old one with a set of distinct wall slots flipped, each with exactly one odd index (never a post), all inside the box and `width*height` in number; an empty extent in the chosen orientation flips nothing |
| Division.AsWrittenFitsOnlySquare | src/Main.cpp:44 | the top-level arguments as written fit the maze exactly when it is square, and do not fit a 3x5 maze |
| Division.MainArgsFit | src/Main.cpp:44 | the corrected arguments (width `cols-1`, height `rows-1`) always fit |
| Division.DivideMaze | src/Main.cpp:42-44 | with the corrected top-level arguments (width `cols-1`, height `rows-1`, see Findings), removing the walls and dividing flips `(cols-1)*(rows-1)` distinct interior wall slots, none a corner post, each of which ends closed |
| Division.ClosesOpened | src/Main.cpp:42-44 | every slot flipped after `removeWalls` was open, so it ends closed |
| RunFile.SkipSpaceSuffix | src/Interface.cpp:108 | leading white space is dropped: what remains is a suffix, starts with no space, and everything dropped is space |
| RunFile.ParseSkipsSpace | src/Interface.cpp:108 | leading white space does not change the parsed value |
| RunFile.ParseNeedsDigit | src/Interface.cpp:108-112 | a line without a digit fails to parse |
| RunFile.ParseShown | src/Interface.cpp:108 | the decimal text of any integer, followed by nothing or by a non-digit, parses back to it |
| RunFile.FileValuesRead | src/Interface.cpp:106-113 | if any line fails to parse, no value is kept; otherwise there is one value per line, each its line's parse |
| RunFile.ReversedTwice | src/Interface.cpp:115-116 | reversing twice gives the list back |
| RunFile.ReverseInPlace | src/Interface.cpp:116 | the array ends as the reversal of its old contents |
| RunFile.ReadValues | src/Interface.cpp:102-113 | the loop yields exactly the file's values (or none on a failed line), each a 32-bit integer |
| RunFile.GetLines | src/Interface.cpp:101-119 | the result is the reversal of the file's values, or empty if a line fails to parse |
| RunFile.AlgorithmOf | src/Interface.cpp:150-166 | a code is accepted exactly when it is 1 to 4 |
| RunFile.AlgorithmCodes | src/Interface.cpp:150-166 | code `k` decodes to algorithm `a` exactly when `a` is written as `k` |
| RunFile.DecodeWhole | src/Interface.cpp:139-142 | a value count that is not a multiple of four is rejected |
| RunFile.DecodeGroups | src/Interface.cpp:145-188 | decoding succeeds with `rs` exactly when there is one record per four values and record `k` decodes from values `4k..4k+3` |
| RunFile.DecodeEncode | src/Interface.cpp:145-188 | decoding the flattened values of any list of valid runs gives those runs back |
| RunFile.EncodeDecode | src/Interface.cpp:145-188 | whatever decodes is a list of valid runs whose flattening is exactly the input |
| RunFile.SizeOfInt | src/Interface.cpp:169-176 | an `int` whose `unsigned` conversion passes the size test was already that value |
| RunFile.LinesRead | src/Interface.cpp:107-108 | each written line parses to its value |
| RunFile.FileRoundTrip | src/Interface.cpp:122-189 | writing valid runs one value per line and loading that file gives the runs back |
| RunFile.FileAccepted | src/Interface.cpp:139-142 | a non-empty load has exactly four lines per run |
| RunFile.PrependRun | src/Interface.cpp:184-185 | an accepted record is appended in file order |
| RunFile.RejectRun | src/Interface.cpp:163-179 | a rejected record discards the whole batch, including records already decoded |
| RunFile.ReadRecord | src/Interface.cpp:146-185 | the record is the decoding of the last four values in pop order (code, rows, cols, delay), and on success those four are removed |
| RunFile.DecodeStack | src/Interface.cpp:139-188 | the loop agrees with the all-or-nothing decoding of the list in file order |
| RunFile.LoadRunsFromFile | src/Interface.cpp:122-189 | the runs are the all-or-nothing decoding of the file's values, and if there are any, there is one per four lines |

## Left out

- Rendering, window handling, frame delays (`update`), threads and the `std::async` hand-off are not modelled. Neither are the renderer calls inside the core (`backtrack`, the colouring loop of `ellers`, the post-painting in `recursiveDivision`). They do not affect the matrix.
- Randomness: `std::random_device`, `mt19937`, `std::uniform_int_distribution` and `std::shuffle` are replaced by an oracle that promises only the range, or only a permutation. Uniformity is not modelled.
- Opening the run file and splitting it into lines are not modelled. The decoder takes the file's lines as input.
- Console input (`configureRun` and its helpers) and the debug printers are not modelled. `getRandomDir` is not modelled either, because no modelled code calls it.
- RunFile.ReadValues: an over-long number makes `std::stoi` throw `std::out_of_range`, which escapes the source's `catch`. The model states it as the precondition `NoOverflow` rather than modelling the crash.
- RunFile.ParseInt: `std::stoi`'s locale handling and the `0x`/octal prefixes do not apply (base 10 only). White space is the C locale's set.
- RunFile.GetLines and RunFile.LoadRunsFromFile: `getLines` and the `while` loop of `loadRunsFromFile` are modelled by several methods. `ReadValues` and `GetLines` cover the reading and the reversal. `ReadRecord` covers one pass of the decoding loop and `DecodeStack` the loop itself. Each is proved against the same decoding functions.
- Ellers.Ellers: it is not proved that every cell ends with an open slot, nor that the final maze is connected and has no cycle (a spanning tree); only the wall count `rows*cols - 1` and growth are. It also requires at least one column when there is a row. With zero columns the source computes `0u - 1` as its loop bound and calls `cellSets.at` on a missing key, so it throws.
- Ellers.VerticalPass: only the lower bound of one downward carve per set is proved; the upper bound of `|set|` carves is not stated.
- Division.RecursiveDivision: it requires non-negative coordinates and extents inside the maze. The source does not check bounds itself. Each recursive call meets the requirement when its parent does, and so does the corrected top-level call in `Division.DivideMaze`. The call as written at `src/Main.cpp:44` does not meet it on a non-square maze (see Findings).
- GrowingTrees.GrowingTree: it requires at least one row and one column. With zero rows or columns, the start draw at `src/MazeSolver.cpp:124` computes `getSize().x - 1` (or `.y - 1`) in unsigned arithmetic, which wraps around and reaches `irand` as the empty range `(0, -1)`.
- Backtracking.GenerateBacktrack: it requires at least one row and one column. `recursiveBacktrack` draws no start cell. With zero rows (or columns), `isVisited(0, 0, Down)` (or `Right`) compares against `rows - 1` (or `cols - 1`), which is -1, so the border test fails (`src/Maze.cpp:93-94`, `99-100`). `isVisitedImpl` then reads past the end of the matrix (`src/Maze.cpp:80-84`).
- Mazes.Maze.Assign: its second precondition excludes another maze larger than this one. There the source's loop at `src/Maze.cpp:41-43` writes past the end of this matrix, which is undefined behaviour and is not modelled. The finding below covers the stale shape left when the other maze is smaller.
- Backtracking.GenerateBacktrack: that the carves connect every cell to every other and form no cycle (a spanning tree) is not proved. Only the wall count `rows*cols - 1`, that every open wall lies between two cells, and every cell being opened are.
- GrowingTrees.GrowingTree: that the carves connect every cell and form no cycle (a spanning tree) is not proved. Only the wall count, that every open wall lies between two cells, the iteration count and every cell being opened are.
- Division.DivideMaze: that every cell can reach every other once the division is done is not proved. Only the number, distinctness and position of the flipped wall slots are.
- Mazes.Maze.constructor, Mazes.Maze.Resize and Mazes.Maze.Initialize: dimensions are natural numbers below 2^31. Negative sizes given to the source's `int` fields are not modelled.
- Solver.PickOrientation: for equal width and height the result is the oracle's choice, and nothing more is stated.

## Findings

| source | as written | input that shows it | evidently intended | confidence | as-written member | corrected member |
|---|---|---|---|---|---|---|
| src/Main.cpp:44 | `recursiveDivision` gets `(rows-1, cols-1)` as `(width, height)`, but width indexes columns and height indexes rows | a 3 x 5 maze: width 2 over 5 columns and height 4 over 3 rows, so row indices reach 4 | width `cols-1`, height `rows-1` | not executed | Division.AsWrittenFitsOnlySquare | Division.MainArgsFit |
| src/Maze.cpp:37-46 | `operator=` copies the dimensions but overwrites only the top-left block of the matrix, keeping its old size (a larger other maze is written out of bounds, next row) | copying a 1 x 1 maze over a 2 x 2 maze leaves a 5 x 5 matrix for a 1 x 1 maze | the matrix becomes a copy of the other maze's | not executed | Mazes.OverwrittenKeepsStaleShape | Mazes.Maze.AssignCopy |
| src/Maze.cpp:41-43 | the copy loop runs over the other matrix's height and width without checking this matrix's size | copying a 2 x 2 maze over a 1 x 1 maze writes rows 3 and 4 of a 3-row matrix | the matrix is replaced, so every index stays in bounds | not executed | Mazes.LargerOtherOverruns | Mazes.Maze.AssignCopy |

The corrected division arguments are the ones `Division.DivideMaze` uses.

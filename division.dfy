/** Recursive division: starting from a maze with every inner wall open,
    split the region by a full line of walls with one gap, then divide the
    two halves. A region is given by its top-left cell and its extent: it
    covers rows `row .. row + height` and columns `col .. col + width`,
    both ends included. */
module Division {
  import opened Grid
  import opened Mazes
  import opened Solver

  /** `p` lies inside the box spanned by the centres of the region's cells
      and has exactly one odd index, so it is a wall slot between two cells
      of the region, neither a centre nor a corner post. */
  predicate InBox(p: Entry, row: int, col: int, width: int, height: int)
  {
    && 2 * row + 1 <= p.0 <= 2 * (row + height) + 1 && 2 * col + 1 <= p.1 <= 2 * (col + width) + 1
    && p.0 % 2 != p.1 % 2
  }

  /** `g` with every entry of `t` flipped. */
  ghost function Flipped(g: seq<seq<bool>>, t: set<Entry>): seq<seq<bool>>
  {
    seq(|g|, i requires 0 <= i < |g| => seq(|g[i]|, j requires 0 <= j < |g[i]| => g[i][j] != ((i, j) in t)))
  }

  lemma FlippedNone(g: seq<seq<bool>>)
    ensures Flipped(g, {}) == g
  {
    var h := Flipped(g, {});
    forall i | 0 <= i < |g| ensures h[i] == g[i] {
    }
  }

  /** Flipping one more entry with `ToggleWall`. */
  lemma FlippedAdd(g: seq<seq<bool>>, t: set<Entry>, p: Entry)
    requires 0 <= p.0 < |g| && 0 <= p.1 < |g[p.0]| && p !in t
    ensures Toggled(Flipped(g, t), p) == Flipped(g, t + {p})
  {
    var a, b := Toggled(Flipped(g, t), p), Flipped(g, t + {p});
    forall i | 0 <= i < |g| ensures a[i] == b[i] {
    }
  }

  /** Flipping two disjoint sets one after the other. */
  lemma FlippedUnion(g: seq<seq<bool>>, s: set<Entry>, t: set<Entry>)
    requires s !! t
    ensures Flipped(Flipped(g, s), t) == Flipped(g, s + t)
  {
    var a, b := Flipped(Flipped(g, s), t), Flipped(g, s + t);
    forall i | 0 <= i < |g| ensures a[i] == b[i] {
    }
  }

  /** The slots right of column `c` in rows `lo .. hi - 1`, except row `gap`. */
  function VLine(lo: int, hi: int, c: int, gap: int): set<Entry>
    decreases hi - lo
  {
    if hi <= lo then {} else VLine(lo, hi - 1, c, gap) + (if hi - 1 == gap then {} else {Slot(hi - 1, c, Right)})
  }

  /** The slots below row `r` in columns `lo .. hi - 1`, except column `gap`. */
  function HLine(lo: int, hi: int, r: int, gap: int): set<Entry>
    decreases hi - lo
  {
    if hi <= lo then {} else HLine(lo, hi - 1, r, gap) + (if hi - 1 == gap then {} else {Slot(r, hi - 1, Down)})
  }

  /** The parities of an odd and an even line of the matrix. */
  lemma SlotParity(a: int, b: int)
    ensures (2 * a + 1) % 2 == 1 && (2 * b + 2) % 2 == 0
  {
  }

  /** Every slot of a vertical line has an odd row and an even column. */
  lemma {:induction false} VLineParity(lo: int, hi: int, c: int, gap: int)
    decreases hi - lo
    ensures forall p | p in VLine(lo, hi, c, gap) :: p.0 % 2 == 1 && p.1 % 2 == 0
  {
    if lo < hi {
      VLineParity(lo, hi - 1, c, gap);
      SlotParity(hi - 1, c);
    }
  }

  /** Every slot of a horizontal line has an even row and an odd column. */
  lemma {:induction false} HLineParity(lo: int, hi: int, r: int, gap: int)
    decreases hi - lo
    ensures forall p | p in HLine(lo, hi, r, gap) :: p.1 % 2 == 1 && p.0 % 2 == 0
  {
    if lo < hi {
      HLineParity(lo, hi - 1, r, gap);
      SlotParity(r, hi - 1);
    }
  }

  /** A vertical line holds one slot per row but the gap, all in column
      `2 * c + 2` of the matrix, on odd lines from `2 * lo + 1` to `2 * hi - 1`. */
  lemma {:induction false} VLineFacts(lo: int, hi: int, c: int, gap: int)
    requires lo <= hi
    decreases hi - lo
    ensures |VLine(lo, hi, c, gap)| == (hi - lo) - (if lo <= gap < hi then 1 else 0)
    ensures forall p | p in VLine(lo, hi, c, gap) :: p.1 == 2 * c + 2 && 2 * lo + 1 <= p.0 <= 2 * hi - 1
    ensures forall p | p in VLine(lo, hi, c, gap) :: p.0 % 2 == 1 && p.1 % 2 == 0
  {
    VLineParity(lo, hi, c, gap);
    if lo < hi {
      VLineFacts(lo, hi - 1, c, gap);
      assert Slot(hi - 1, c, Right) !in VLine(lo, hi - 1, c, gap);
    }
  }

  /** A horizontal line holds one slot per column but the gap, all on line
      `2 * r + 2` of the matrix, in odd columns from `2 * lo + 1` to `2 * hi - 1`. */
  lemma {:induction false} HLineFacts(lo: int, hi: int, r: int, gap: int)
    requires lo <= hi
    decreases hi - lo
    ensures |HLine(lo, hi, r, gap)| == (hi - lo) - (if lo <= gap < hi then 1 else 0)
    ensures forall p | p in HLine(lo, hi, r, gap) :: p.0 == 2 * r + 2 && 2 * lo + 1 <= p.1 <= 2 * hi - 1
    ensures forall p | p in HLine(lo, hi, r, gap) :: p.1 % 2 == 1 && p.0 % 2 == 0
  {
    HLineParity(lo, hi, r, gap);
    if lo < hi {
      HLineFacts(lo, hi - 1, r, gap);
      assert Slot(r, hi - 1, Down) !in HLine(lo, hi - 1, r, gap);
    }
  }

  /** One more row of a vertical line adds its slot, unless it is the gap,
      and that slot is new. */
  lemma VLineStep(lo: int, i: int, c: int, gap: int)
    requires lo <= i
    ensures VLine(lo, i + 1, c, gap) == VLine(lo, i, c, gap) + (if i == gap then {} else {Slot(i, c, Right)})
    ensures Slot(i, c, Right) !in VLine(lo, i, c, gap)
  {
    VLineFacts(lo, i, c, gap);
  }

  /** One more column of a horizontal line adds its slot, unless it is the
      gap, and that slot is new. */
  lemma HLineStep(lo: int, i: int, r: int, gap: int)
    requires lo <= i
    ensures HLine(lo, i + 1, r, gap) == HLine(lo, i, r, gap) + (if i == gap then {} else {Slot(r, i, Down)})
    ensures Slot(r, i, Down) !in HLine(lo, i, r, gap)
  {
    HLineFacts(lo, i, r, gap);
  }

  /** `toggleWall` on a slot that has not been flipped yet: one more entry
      of the flipped set. */
  method FlipSlot(maze: Maze, row: int, col: int, dir: Direction, ghost g0: seq<seq<bool>>, ghost t: set<Entry>)
    returns (ghost t': set<Entry>)
    requires maze.Valid() && InGrid(maze.rows, maze.cols, row, col) && dir != None
    requires maze.grid == Flipped(g0, t) && Slot(row, col, dir) !in t
    modifies maze
    ensures maze.Valid() && maze.rows == old(maze.rows) && maze.cols == old(maze.cols)
    ensures t' == t + {Slot(row, col, dir)} && maze.grid == Flipped(g0, t')
  {
    var p := Slot(row, col, dir);
    assert |g0| == |maze.grid| && |g0[p.0]| == |maze.grid[p.0]|;
    FlippedAdd(g0, t, p);
    maze.ToggleWall(row, col, dir);
    t' := t + {p};
  }

  /** The toggling loop of a vertical slice: the wall right of `sliceCol`
      in every row of the region but `gap`. */
  method VerticalSlice(maze: Maze, row: int, height: int, sliceCol: int, gap: int) returns (ghost t: set<Entry>)
    requires maze.Valid() && 0 <= row && 0 <= height && row + height < maze.rows && 0 <= sliceCol < maze.cols
    modifies maze
    ensures maze.Valid() && maze.rows == old(maze.rows) && maze.cols == old(maze.cols)
    ensures t == VLine(row, row + height + 1, sliceCol, gap)
    ensures maze.grid == Flipped(old(maze.grid), t)
  {
    t := {};
    FlippedNone(maze.grid);
    for i := row to row + height + 1
      invariant maze.Valid() && maze.rows == old(maze.rows) && maze.cols == old(maze.cols)
      invariant t == VLine(row, i, sliceCol, gap)
      invariant maze.grid == Flipped(old(maze.grid), t)
    {
      VLineStep(row, i, sliceCol, gap);
      if i != gap {
        t := FlipSlot(maze, i, sliceCol, Right, old(maze.grid), t);
      }
    }
  }

  /** The toggling loop of a horizontal slice: the wall below `sliceRow`
      in every column of the region but `gap`. */
  method HorizontalSlice(maze: Maze, col: int, width: int, sliceRow: int, gap: int) returns (ghost t: set<Entry>)
    requires maze.Valid() && 0 <= col && 0 <= width && col + width < maze.cols && 0 <= sliceRow < maze.rows
    modifies maze
    ensures maze.Valid() && maze.rows == old(maze.rows) && maze.cols == old(maze.cols)
    ensures t == HLine(col, col + width + 1, sliceRow, gap)
    ensures maze.grid == Flipped(old(maze.grid), t)
  {
    t := {};
    FlippedNone(maze.grid);
    for i := col to col + width + 1
      invariant maze.Valid() && maze.rows == old(maze.rows) && maze.cols == old(maze.cols)
      invariant t == HLine(col, i, sliceRow, gap)
      invariant maze.grid == Flipped(old(maze.grid), t)
    {
      HLineStep(col, i, sliceRow, gap);
      if i != gap {
        t := FlipSlot(maze, sliceRow, i, Down, old(maze.grid), t);
      }
    }
  }

  /** `recursiveDivision`: a region one cell wide (for a vertical slice) or
      one cell tall (for a horizontal one) is left alone; otherwise a random
      full line with a random gap splits it, and both parts are divided,
      each in the orientation its shape picks. Every slot is flipped at most
      once, only slots inside the region are flipped, and exactly
      `width * height` of them are, the number of walls a spanning tree of
      the region's `(width + 1) * (height + 1)` cells leaves closed (that the
      open ones form such a tree is not proved). */
  method RecursiveDivision(maze: Maze, row: int, col: int, width: int, height: int, orientation: bool)
    returns (ghost toggled: set<Entry>)
    requires maze.Valid() && 0 <= row && 0 <= col && 0 <= width && 0 <= height
    requires row + height < maze.rows && col + width < maze.cols
    modifies maze
    decreases width + height, 1
    ensures maze.Valid() && maze.rows == old(maze.rows) && maze.cols == old(maze.cols)
    ensures maze.grid == Flipped(old(maze.grid), toggled)
    ensures Divided(toggled, row, col, width, height)
  {
    if (width <= 0 && orientation) || (height <= 0 && !orientation) {
      toggled := {};
      FlippedNone(maze.grid);
    } else if orientation {
      toggled := VerticalDivide(maze, row, col, width, height);
    } else {
      toggled := HorizontalDivide(maze, row, col, width, height);
    }
  }

  /** The vertical branch of `recursiveDivision`: a wall column with one
      gap, then the part right of it, then the part left of it. */
  method VerticalDivide(maze: Maze, row: int, col: int, width: int, height: int)
    returns (ghost toggled: set<Entry>)
    requires maze.Valid() && 0 <= row && 0 <= col && 1 <= width && 0 <= height
    requires row + height < maze.rows && col + width < maze.cols
    modifies maze
    decreases width + height, 0
    ensures maze.Valid() && maze.rows == old(maze.rows) && maze.cols == old(maze.cols)
    ensures maze.grid == Flipped(old(maze.grid), toggled)
    ensures Divided(toggled, row, col, width, height)
  {
    ghost var g0 := maze.grid;
    var sliceCol := Irand(col, col + width - 1);
    var gapIndex := Irand(row, row + height);
    ghost var line := VerticalSlice(maze, row, height, sliceCol, gapIndex);
    ghost var g1 := maze.grid;
    var rightWidth, leftWidth := width - (sliceCol - col + 1), sliceCol - col;
    var vertical := PickOrientation(rightWidth, height);
    ghost var right := RecursiveDivision(maze, row, sliceCol + 1, rightWidth, height, vertical);
    ghost var g2 := maze.grid;
    vertical := PickOrientation(leftWidth, height);
    ghost var left := RecursiveDivision(maze, row, col, leftWidth, height, vertical);
    toggled := line + right + left;
    VerticalParts(row, col, width, height, sliceCol, gapIndex, rightWidth, leftWidth, line, right, left);
    Joined(g0, g1, g2, maze.grid, line, right, left);
  }

  /** The horizontal branch of `recursiveDivision`: a wall row with one
      gap, then the part below it, then the part above it. */
  method HorizontalDivide(maze: Maze, row: int, col: int, width: int, height: int)
    returns (ghost toggled: set<Entry>)
    requires maze.Valid() && 0 <= row && 0 <= col && 0 <= width && 1 <= height
    requires row + height < maze.rows && col + width < maze.cols
    modifies maze
    decreases width + height, 0
    ensures maze.Valid() && maze.rows == old(maze.rows) && maze.cols == old(maze.cols)
    ensures maze.grid == Flipped(old(maze.grid), toggled)
    ensures Divided(toggled, row, col, width, height)
  {
    ghost var g0 := maze.grid;
    var sliceRow := Irand(row, row + height - 1);
    var gapIndex := Irand(col, col + width);
    ghost var line := HorizontalSlice(maze, col, width, sliceRow, gapIndex);
    ghost var g1 := maze.grid;
    var belowHeight, aboveHeight := height - (sliceRow - row + 1), sliceRow - row;
    var vertical := PickOrientation(width, belowHeight);
    ghost var below := RecursiveDivision(maze, sliceRow + 1, col, width, belowHeight, vertical);
    ghost var g2 := maze.grid;
    vertical := PickOrientation(width, aboveHeight);
    ghost var above := RecursiveDivision(maze, row, col, width, aboveHeight, vertical);
    toggled := line + below + above;
    HorizontalParts(row, col, width, height, sliceRow, gapIndex, belowHeight, aboveHeight, line, below, above);
    Joined(g0, g1, g2, maze.grid, line, below, above);
  }

  /** The flips of a division of a region: wall slots inside it, and
      exactly `width * height` of them. */
  predicate Divided(t: set<Entry>, row: int, col: int, width: int, height: int)
  {
    (forall p | p in t :: InBox(p, row, col, width, height)) && |t| == width * height
  }

  /** A vertical slice at `sliceCol` and the two parts beside it flip
      disjoint slots of the region, `width * height` of them in all. */
  lemma VerticalParts(row: int, col: int, width: int, height: int, sliceCol: int, gap: int, rightWidth: int, leftWidth: int,
                      line: set<Entry>, right: set<Entry>, left: set<Entry>)
    requires col <= sliceCol < col + width && 0 <= height
    requires rightWidth == width - (sliceCol - col + 1) && leftWidth == sliceCol - col
    requires row <= gap <= row + height && line == VLine(row, row + height + 1, sliceCol, gap)
    requires Divided(right, row, sliceCol + 1, rightWidth, height) && Divided(left, row, col, leftWidth, height)
    ensures line !! right && line !! left && right !! left
    ensures Divided(line + right + left, row, col, width, height)
  {
    VLineFacts(row, row + height + 1, sliceCol, gap);
    assert line !! right && line !! left && right !! left by {
      forall p | p in line ensures p !in right && p !in left {
      }
      forall p | p in right ensures p !in left {
      }
    }
    UnionCard(line, right, left);
    SplitCount(height, leftWidth, rightWidth, width, |line|, |right|, |left|);
  }

  /** Pairwise disjoint sets: the union's size is the sum of the sizes. */
  lemma UnionCard(a: set<Entry>, b: set<Entry>, c: set<Entry>)
    requires a !! b && a !! c && b !! c
    ensures |a + b + c| == |a| + |b| + |c|
  {
    assert |a + b| == |a| + |b|;
  }

  /** A horizontal slice at `sliceRow` and the two parts beside it flip
      disjoint slots of the region, `width * height` of them in all. */
  lemma HorizontalParts(row: int, col: int, width: int, height: int, sliceRow: int, gap: int, belowHeight: int, aboveHeight: int,
                        line: set<Entry>, below: set<Entry>, above: set<Entry>)
    requires row <= sliceRow < row + height && 0 <= width
    requires belowHeight == height - (sliceRow - row + 1) && aboveHeight == sliceRow - row
    requires col <= gap <= col + width && line == HLine(col, col + width + 1, sliceRow, gap)
    requires Divided(below, sliceRow + 1, col, width, belowHeight) && Divided(above, row, col, width, aboveHeight)
    ensures line !! below && line !! above && below !! above
    ensures Divided(line + below + above, row, col, width, height)
  {
    HLineFacts(col, col + width + 1, sliceRow, gap);
    assert line !! below && line !! above && below !! above by {
      forall p | p in line ensures p !in below && p !in above {
      }
      forall p | p in below ensures p !in above {
      }
    }
    UnionCard(line, below, above);
    SplitCount(width, aboveHeight, belowHeight, height, |line|, |below|, |above|);
  }

  /** Three flips in a row over pairwise disjoint sets are one flip. */
  lemma Joined(g0: seq<seq<bool>>, g1: seq<seq<bool>>, g2: seq<seq<bool>>, g3: seq<seq<bool>>,
               s: set<Entry>, t: set<Entry>, u: set<Entry>)
    requires g1 == Flipped(g0, s) && g2 == Flipped(g1, t) && g3 == Flipped(g2, u)
    requires s !! t && s !! u && t !! u
    ensures g3 == Flipped(g0, s + t + u)
  {
    FlippedUnion(g0, s, t);
    FlippedUnion(g0, s + t, u);
  }

  /** A line of `n` flips beside parts `a` and `b` cells wider than the
      line, with `a + b + 1 == w`, account for `w * n` flips in all. */
  lemma SplitCount(n: int, a: int, b: int, w: int, line: int, first: int, second: int)
    requires a + b + 1 == w && line == n && (first == b * n || first == n * b) && (second == a * n || second == n * a)
    ensures line + first + second == w * n && line + first + second == n * w
  {
    assert w * n == (a + b + 1) * n;
  }

  /** The region `Main.cpp` hands to the first call, as written: the row
      count minus one as the width and the column count minus one as the
      height, in the call's (row, col, width, height) order. */
  function AsWrittenArgs(rows: int, cols: int): (int, int, int, int)
  {
    (0, 0, rows - 1, cols - 1)
  }

  /** The region the first call evidently means: the whole maze. */
  function MainArgs(rows: int, cols: int): (int, int, int, int)
  {
    (0, 0, cols - 1, rows - 1)
  }

  /** `RecursiveDivision`'s precondition on a (row, col, width, height)
      region of a rows x cols maze. */
  predicate Fits(rows: int, cols: int, a: (int, int, int, int))
  {
    0 <= a.0 && 0 <= a.1 && 0 <= a.2 && 0 <= a.3 && a.0 + a.3 < rows && a.1 + a.2 < cols
  }

  /** As written, the first region lies inside the maze exactly when the
      maze is square; a 3 x 5 maze, say, is divided beyond its last row. */
  lemma AsWrittenFitsOnlySquare(rows: int, cols: int)
    requires rows >= 1 && cols >= 1
    ensures Fits(rows, cols, AsWrittenArgs(rows, cols)) <==> rows == cols
    ensures !Fits(3, 5, AsWrittenArgs(3, 5))
  {
  }

  /** The corrected first region is the whole maze, for every shape. */
  lemma MainArgsFit(rows: int, cols: int)
    requires rows >= 1 && cols >= 1
    ensures Fits(rows, cols, MainArgs(rows, cols))
    ensures var a := MainArgs(rows, cols); a.2 + 1 == cols && a.3 + 1 == rows
  {
  }

  /** The recursive-division run of `Main.cpp`: open every inner wall, then
      divide the whole maze in a random first orientation. Every flipped
      slot was opened by `removeWalls` and ends closed; every other entry
      is as `removeWalls` left it; `(cols - 1) * (rows - 1)` walls close. */
  method DivideMaze(maze: Maze) returns (ghost toggled: set<Entry>)
    requires maze.Valid() && maze.rows >= 1 && maze.cols >= 1
    modifies maze
    ensures maze.Valid() && maze.rows == old(maze.rows) && maze.cols == old(maze.cols)
    ensures maze.grid == Flipped(OpenField(old(maze.grid), maze.rows, maze.cols), toggled)
    ensures |toggled| == (maze.cols - 1) * (maze.rows - 1)
    ensures forall p | p in toggled :: InBox(p, 0, 0, maze.cols - 1, maze.rows - 1)
    ensures forall p | p in toggled :: !At(maze.grid, p)
  {
    maze.RemoveWalls();
    ghost var g := maze.grid;
    var coin := Irand(0, 100);
    var a := MainArgs(maze.rows, maze.cols);
    MainArgsFit(maze.rows, maze.cols);
    toggled := RecursiveDivision(maze, a.0, a.1, a.2, a.3, coin > 50);
    ClosesOpened(old(maze.grid), g, maze.grid, maze.rows, maze.cols, toggled);
  }

  /** Flipping slots inside the maze of the `removeWalls` matrix, while
      keeping every centre open, closes each of them. */
  lemma ClosesOpened(g0: seq<seq<bool>>, g: seq<seq<bool>>, g': seq<seq<bool>>, rows: nat, cols: nat, t: set<Entry>)
    requires WellFormed(g0, rows, cols) && g == OpenField(g0, rows, cols)
    requires g' == Flipped(g, t) && rows >= 1 && cols >= 1
    requires forall p | p in t :: InBox(p, 0, 0, cols - 1, rows - 1)
    ensures forall p | p in t :: !At(g', p)
  {
    OpenFieldFacts(g0, rows, cols);
    forall p | p in t ensures !At(g', p) {
      assert g[p.0][p.1];
    }
  }
}

/** The maze grid: a `(2*rows+1) x (2*cols+1)` boolean matrix whose odd/odd
    entries are cell centres (always open) and whose other entries are wall
    slots and corner posts (open where carved). */
module Mazes {
  import opened Grid

  /** The character `operator<<` writes for one entry. */
  function Bit(b: bool): char
  {
    if b then '1' else '0'
  }

  /** The first `w` entries of `line`, written one at a time as the stream does. */
  function WriteRow(line: seq<bool>, w: nat): (s: string)
    requires w <= |line|
    ensures |s| == w && forall j | 0 <= j < w :: s[j] == Bit(line[j])
  {
    if w == 0 then "" else WriteRow(line, w - 1) + [Bit(line[w - 1])]
  }

  /** Every row, each of its first `w` entries followed by a newline. */
  function WriteRows(g: seq<seq<bool>>, w: nat): (s: string)
    requires forall i | 0 <= i < |g| :: w <= |g[i]|
    ensures forall k | 0 <= k < |s| :: s[k] in "01\n"
    ensures g != [] ==> |s| > 0 && s[|s| - 1] == '\n'
  {
    if g == [] then "" else WriteRow(g[0], w) + "\n" + WriteRows(g[1..], w)
  }

  /** Reading the dump back: text up to the first newline. */
  function LineEnd(s: string): (k: nat)
    ensures k <= |s| && (k < |s| ==> s[k] == '\n')
    ensures forall i | 0 <= i < k :: s[i] != '\n'
  {
    if s == [] || s[0] == '\n' then 0 else 1 + LineEnd(s[1..])
  }

  /** Reading the dump back: `1` is an open entry, anything else a closed one. */
  function Bits(s: string): (line: seq<bool>)
    ensures |line| == |s| && forall j | 0 <= j < |s| :: line[j] == (s[j] == '1')
  {
    seq(|s|, j requires 0 <= j < |s| => s[j] == '1')
  }

  /** Reading the dump back: one matrix row per newline-terminated line. */
  function ReadDump(s: string): seq<seq<bool>>
    decreases |s|
  {
    if s == [] then []
    else
      var k := LineEnd(s);
      [Bits(s[..k])] + if k == |s| then [] else ReadDump(s[k + 1..])
  }

  lemma LineEndAfter(a: string, b: string)
    requires forall i | 0 <= i < |a| :: a[i] != '\n'
    ensures LineEnd(a + "\n" + b) == |a|
  {
    var s := a + "\n" + b;
    if a != [] {
      assert s[1..] == a[1..] + "\n" + b;
      LineEndAfter(a[1..], b);
    }
  }

  /** Reading a line and what follows it. */
  lemma ReadDumpLine(a: string, b: string)
    requires forall i | 0 <= i < |a| :: a[i] != '\n'
    ensures ReadDump(a + "\n" + b) == [Bits(a)] + ReadDump(b)
  {
    var s := a + "\n" + b;
    LineEndAfter(a, b);
    assert s[..|a|] == a && s[|a| + 1..] == b;
  }

  /** The dump reads back as the matrix it was written from. */
  lemma {:induction false} ReadWriteRows(g: seq<seq<bool>>, w: nat)
    requires forall i | 0 <= i < |g| :: |g[i]| == w
    ensures ReadDump(WriteRows(g, w)) == g
  {
    if g != [] {
      var head := WriteRow(g[0], w);
      ReadDumpLine(head, WriteRows(g[1..], w));
      assert Bits(head) == g[0];
      ReadWriteRows(g[1..], w);
      assert g == [g[0]] + g[1..];
    }
  }

  /** Row `i` after `removeWalls`: every non-frame entry with an even
      index is opened, everything else is kept. */
  function OpenRow(line: seq<bool>, i: int, rows: int, cols: int): seq<bool>
  {
    seq(|line|, j requires 0 <= j < |line| =>
      line[j] || ((j % 2 == 0 || i % 2 == 0) && j != 0 && i != 0 && j != cols * 2 && i != rows * 2))
  }

  /** The matrix after `removeWalls`, row by row. */
  function OpenField(g: seq<seq<bool>>, rows: int, cols: int): seq<seq<bool>>
  {
    seq(|g|, i requires 0 <= i < |g| => OpenRow(g[i], i, rows, cols))
  }

  /** What `removeWalls` achieves: it only opens entries, it opens every inner
      slot and post, it leaves the outer frame as it was, and afterwards every
      neighbour of every cell counts as visited. */
  lemma OpenFieldFacts(g: seq<seq<bool>>, rows: nat, cols: nat)
    requires WellFormed(g, rows, cols)
    ensures WellFormed(OpenField(g, rows, cols), rows, cols)
    ensures Grows(g, OpenField(g, rows, cols))
    ensures forall i, j | 0 < i < 2 * rows && 0 < j < 2 * cols && (i % 2 == 0 || j % 2 == 0) ::
              OpenField(g, rows, cols)[i][j]
    ensures forall i, j | 0 <= i < |g| && 0 <= j < |g[i]| && (i == 0 || j == 0 || i == 2 * rows || j == 2 * cols) ::
              OpenField(g, rows, cols)[i][j] == g[i][j]
    ensures forall r, c | InGrid(rows, cols, r, c) :: Settled(OpenField(g, rows, cols), rows, cols, r, c)
  {
    var h := OpenField(g, rows, cols);
    forall r, c | InGrid(rows, cols, r, c) ensures Settled(h, rows, cols, r, c) {
      forall d | d != None ensures NeighbourDone(h, rows, cols, r, c, d) {
        var n := Step(r, c, d);
        if InGrid(rows, cols, n.0, n.1) {
          SlotShared(r, c, d);
          assert At(h, Slot(n.0, n.1, Opposite(d)));
        }
      }
    }
  }

  /** The grid assignment of `operator=` as written: the other matrix is
      copied entry by entry over the top-left of this one, which is neither
      resized nor cleared. */
  function Overwritten(mine: seq<seq<bool>>, theirs: seq<seq<bool>>): (g: seq<seq<bool>>)
    requires |theirs| > 0 && |theirs| <= |mine|
    requires forall i | 0 <= i < |theirs| :: |theirs[0]| <= |theirs[i]| && |theirs[0]| <= |mine[i]|
    ensures |g| == |mine| && forall i | 0 <= i < |g| :: |g[i]| == |mine[i]|
    ensures forall i, j | 0 <= i < |theirs| && 0 <= j < |theirs[0]| :: g[i][j] == theirs[i][j]
    ensures forall i, j | 0 <= i < |g| && 0 <= j < |g[i]| && !(i < |theirs| && j < |theirs[0]|) :: g[i][j] == mine[i][j]
  {
    seq(|mine|, i requires 0 <= i < |mine| =>
      seq(|mine[i]|, j requires 0 <= j < |mine[i]| =>
        if i < |theirs| && j < |theirs[0]| then theirs[i][j] else mine[i][j]))
  }

  /** Assigning a 1 x 1 maze over a 2 x 2 one keeps the larger matrix, so the
      object claims one row while holding five matrix rows. */
  lemma OverwrittenKeepsStaleShape()
    ensures !WellFormed(Overwritten(FreshGrid(2, 2), FreshGrid(1, 1)), 1, 1)
  {
    var g := Overwritten(FreshGrid(2, 2), FreshGrid(1, 1));
    assert |g| == 5;
  }

  /** Assigning a larger maze over a smaller one: the source's copy loop runs
      its row index up to the other matrix's height and its column index up
      to the other matrix's width, and one of them passes the end of this
      matrix. */
  lemma LargerOtherOverruns(mine: seq<seq<bool>>, theirs: seq<seq<bool>>,
                            rows: nat, cols: nat, rows': nat, cols': nat)
    requires WellFormed(mine, rows, cols) && WellFormed(theirs, rows', cols')
    requires rows < rows' || cols < cols'
    ensures |mine| < |theirs| || |mine[0]| < |theirs[0]|
  {
  }

  class Maze {
    var rows: nat
    var cols: nat
    var grid: seq<seq<bool>>

    /** The matrix has the maze's shape and every cell centre is open; the
        dimensions fit the source's `int` fields. */
    ghost predicate Valid()
      reads this
    {
      rows < 0x8000_0000 && cols < 0x8000_0000 && WellFormed(grid, rows, cols)
    }

    constructor (rows: nat, cols: nat)
      requires rows < 0x8000_0000 && cols < 0x8000_0000
      ensures Valid() && this.rows == rows && this.cols == cols
      ensures grid == FreshGrid(rows, cols)
    {
      this.rows := rows;
      this.cols := cols;
      grid := [];
      new;
      Initialize();
    }

    /** Rebuilds the matrix for the current dimensions. */
    method Initialize()
      requires rows < 0x8000_0000 && cols < 0x8000_0000
      modifies this
      ensures rows == old(rows) && cols == old(cols)
      ensures Valid() && grid == FreshGrid(rows, cols)
    {
      var n := rows * 2 + 1;
      // grid.resize(n): keep a prefix or pad with empty rows
      grid := if |grid| >= n then grid[..n] else grid + seq(n - |grid|, _ => []);
      var i := 0;
      while i < n
        invariant 0 <= i <= n && |grid| == n
        invariant rows == old(rows) && cols == old(cols)
        invariant forall k | 0 <= k < i :: grid[k] == FreshGrid(rows, cols)[k]
      {
        var line := seq(cols * 2 + 1, _ => false);
        var j := 0;
        while j < |line|
          invariant 0 <= j <= |line| == cols * 2 + 1
          invariant forall m | 0 <= m < |line| :: line[m] == (m < j && m % 2 != 0 && i % 2 != 0)
        {
          if j % 2 != 0 && i % 2 != 0 {
            line := line[j := true];
          }
          j := j + 1;
        }
        grid := grid[i := line];
        i := i + 1;
      }
      assert grid == FreshGrid(rows, cols);
      FreshGridFacts(rows, cols);
    }

    /** Replaces the dimensions and rebuilds the matrix; nothing of the old
        matrix survives. */
    method Resize(rows: nat, cols: nat)
      requires rows < 0x8000_0000 && cols < 0x8000_0000
      modifies this
      ensures Valid() && this.rows == rows && this.cols == cols
      ensures grid == FreshGrid(rows, cols)
    {
      this.rows := rows;
      this.cols := cols;
      Initialize();
    }

    /** `operator=` as written: dimensions and the other matrix's entries are
        copied, but this matrix keeps its own size; a smaller matrix here
        would be written out of bounds, which the second requires excludes. */
    method Assign(other: Maze)
      requires Valid() && other.Valid()
      requires other != this ==> other.rows <= rows && other.cols <= cols
      modifies this
      ensures other == this ==> rows == old(rows) && cols == old(cols) && grid == old(grid)
      ensures other != this ==> rows == other.rows && cols == other.cols
      ensures other != this ==> grid == Overwritten(old(grid), other.grid)
    {
      if other != this && |other.grid| > 0 {
        rows := other.rows;
        cols := other.cols;
        var i := 0;
        while i < |other.grid|
          invariant 0 <= i <= |other.grid|
          invariant rows == other.rows && cols == other.cols
          invariant |grid| == |old(grid)| && forall k | 0 <= k < |grid| :: |grid[k]| == |old(grid)[k]|
          invariant forall k, j | 0 <= k < |grid| && 0 <= j < |grid[k]| ::
                      grid[k][j] == if k < i && j < |other.grid[0]| then other.grid[k][j] else old(grid)[k][j]
        {
          var j := 0;
          while j < |other.grid[0]|
            invariant 0 <= j <= |other.grid[0]|
            invariant rows == other.rows && cols == other.cols
            invariant |grid| == |old(grid)| && forall k | 0 <= k < |grid| :: |grid[k]| == |old(grid)[k]|
            invariant forall k, m | 0 <= k < |grid| && 0 <= m < |grid[k]| ::
                        grid[k][m] == if (k < i && m < |other.grid[0]|) || (k == i && m < j) then other.grid[k][m] else old(grid)[k][m]
          {
            grid := grid[i := grid[i][j := other.grid[i][j]]];
            j := j + 1;
          }
          i := i + 1;
        }
        forall k | 0 <= k < |grid| ensures grid[k] == Overwritten(old(grid), other.grid)[k] {
        }
        assert grid == Overwritten(old(grid), other.grid);
      }
    }

    /** Copy assignment as intended: afterwards this maze equals the other. */
    method AssignCopy(other: Maze)
      requires Valid() && other.Valid()
      modifies this
      ensures Valid() && rows == other.rows && cols == other.cols && grid == other.grid
    {
      if other != this {
        rows := other.rows;
        cols := other.cols;
        grid := other.grid;
      }
    }

    /** Flips the one slot between (row, col) and its neighbour in `dir`;
        `None` changes nothing. Both source overloads; their colours only
        drive the renderer. */
    method ToggleWall(row: int, col: int, dir: Direction)
      requires Valid() && InGrid(rows, cols, row, col)
      modifies this
      ensures Valid() && rows == old(rows) && cols == old(cols)
      ensures dir == None ==> grid == old(grid)
      ensures dir != None ==> grid == Toggled(old(grid), Slot(row, col, dir))
    {
      match dir
      case Up =>
        grid := grid[row * 2 := grid[row * 2][col * 2 + 1 := !grid[row * 2][col * 2 + 1]]];
      case Down =>
        grid := grid[row * 2 + 2 := grid[row * 2 + 2][col * 2 + 1 := !grid[row * 2 + 2][col * 2 + 1]]];
      case Left =>
        grid := grid[row * 2 + 1 := grid[row * 2 + 1][col * 2 := !grid[row * 2 + 1][col * 2]]];
      case Right =>
        grid := grid[row * 2 + 1 := grid[row * 2 + 1][col * 2 + 2 := !grid[row * 2 + 1][col * 2 + 2]]];
      case None =>
        return;
    }

    /** `isVisitedImpl`: some side of (row, col) is open. */
    function HasOpenSlot(row: int, col: int): (b: bool)
      reads this
      requires Valid() && InGrid(rows, cols, row, col)
      ensures b == Opened(grid, row, col)
    {
      grid[row * 2][col * 2 + 1] ||
      grid[row * 2 + 2][col * 2 + 1] ||
      grid[row * 2 + 1][col * 2] ||
      grid[row * 2 + 1][col * 2 + 2]
    }

    /** Whether the neighbour in `dir` is taken: always when `dir` leaves the
        maze, never for `None`, otherwise exactly when the neighbour has an
        open side. */
    function IsVisited(row: int, col: int, dir: Direction): (b: bool)
      reads this
      requires Valid() && InGrid(rows, cols, row, col)
      ensures dir == None ==> !b
      ensures dir != None ==> (b <==> NeighbourDone(grid, rows, cols, row, col, dir))
    {
      match dir
      case Up =>
        NeighbourDoneCases(grid, rows, cols, row, col, dir);
        if row == 0 then true else HasOpenSlot(row - 1, col)
      case Down =>
        NeighbourDoneCases(grid, rows, cols, row, col, dir);
        if row == rows - 1 then true else HasOpenSlot(row + 1, col)
      case Left =>
        NeighbourDoneCases(grid, rows, cols, row, col, dir);
        if col == 0 then true else HasOpenSlot(row, col - 1)
      case Right =>
        NeighbourDoneCases(grid, rows, cols, row, col, dir);
        if col == cols - 1 then true else HasOpenSlot(row, col + 1)
      case None => false
    }

    function GetSize(): (size: Vector2u)
      reads this
      requires Valid()
      ensures size.x == rows && size.y == cols
    {
      Vector2u(rows, cols)
    }

    /** Opens every inner slot and post, leaving the frame alone. */
    method RemoveWalls()
      requires Valid()
      modifies this
      ensures Valid() && rows == old(rows) && cols == old(cols)
      ensures grid == OpenField(old(grid), rows, cols)
    {
      var i := 0;
      while i < rows * 2 + 1
        invariant 0 <= i <= rows * 2 + 1
        invariant rows == old(rows) && cols == old(cols) && WellFormed(old(grid), rows, cols)
        invariant |grid| == |old(grid)|
        invariant forall k | 0 <= k < |grid| :: grid[k] == if k < i then OpenField(old(grid), rows, cols)[k] else old(grid)[k]
      {
        var line := grid[i];
        var j := 0;
        while j < |line|
          invariant 0 <= j <= |line| == |old(grid)[i]|
          invariant forall m | 0 <= m < |line| :: line[m] == if m < j then OpenRow(old(grid)[i], i, rows, cols)[m] else old(grid)[i][m]
        {
          if (j % 2 == 0 || i % 2 == 0) && (j != 0 && i != 0 && j != cols * 2 && i != rows * 2) {
            line := line[j := true];
          }
          j := j + 1;
        }
        assert line == OpenRow(old(grid)[i], i, rows, cols);
        grid := grid[i := line];
        i := i + 1;
      }
      assert grid == OpenField(old(grid), rows, cols);
      OpenFieldFacts(old(grid), rows, cols);
    }

    /** `operator<<`: the matrix row by row, each entry as `0` or `1` and
        each row ended by a newline, so that reading it back gives the matrix. */
    function ToText(): (s: string)
      reads this
      requires Valid()
      ensures ReadDump(s) == grid
      ensures forall k | 0 <= k < |s| :: s[k] in "01\n"
      ensures |s| > 0 && s[|s| - 1] == '\n'
    {
      var s := WriteRows(grid, |grid[0]|);
      ReadWriteRows(grid, |grid[0]|);
      s
    }
  }
}

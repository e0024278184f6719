/** The recursive backtracker: from the current cell, try the four
    directions in shuffled order; carve into each neighbour that is still
    untouched and continue from there. */
module Backtracking {
  import opened Grid
  import opened Mazes
  import opened Solver

  /** The loop's state after trying `dirs[..i]` from (row, col), starting
      from the matrix `g0`. */
  ghost predicate Progress(g0: seq<seq<bool>>, g: seq<seq<bool>>, rows: nat, cols: nat, row: int, col: int,
                           dirs: seq<Direction>, i: nat)
  {
    && i <= |dirs|
    && Grows(g0, g)
    && (forall k | 0 <= k < i :: NeighbourDone(g, rows, cols, row, col, dirs[k]))
    && NewlySettled(g0, g, rows, cols, (row, col))
    && Counted(g0, g, rows, cols, (row, col))
  }

  /** `recursiveBacktrack`: afterwards the start cell and every cell the call
      opened are settled, nothing was closed, and every carve opened one
      closed wall towards one untouched cell. */
  method RecursiveBacktrack(maze: Maze, row: int, col: int, dir: Direction)
    requires maze.Valid() && InGrid(maze.rows, maze.cols, row, col)
    modifies maze
    ensures maze.Valid() && maze.rows == old(maze.rows) && maze.cols == old(maze.cols)
    ensures Grows(old(maze.grid), maze.grid)
    ensures Settled(maze.grid, maze.rows, maze.cols, row, col)
    ensures NewlySettled(old(maze.grid), maze.grid, maze.rows, maze.cols, (row, col))
    ensures Counted(old(maze.grid), maze.grid, maze.rows, maze.cols, (row, col))
    ensures OnlyInnerSlots(old(maze.grid), maze.grid, maze.rows, maze.cols)
    decreases UnvisitedCells(maze.grid, maze.rows, maze.cols)
  {
    var dirs := Shuffle(Dirs);
    ShuffledDirs(dirs);
    ghost var g0, rows, cols := maze.grid, maze.rows, maze.cols;
    ProgressStart(g0, rows, cols, row, col, dirs);
    for i := 0 to |dirs|
      invariant maze.Valid() && maze.rows == rows && maze.cols == cols
      invariant Progress(g0, maze.grid, rows, cols, row, col, dirs, i)
      invariant WellFormed(g0, rows, cols) && OnlyInnerSlots(g0, maze.grid, rows, cols)
    {
      var d := dirs[i];
      assert d in dirs;
      ghost var g1 := maze.grid;
      assert WellFormed(g1, rows, cols);
      if !maze.IsVisited(row, col, d) {
        var n := Step(row, col, d);
        assert d != None && !NeighbourDone(g1, rows, cols, row, col, d);
        UntouchedSlot(g1, row, col, d);
        maze.ToggleWall(row, col, d);
        ghost var gt := maze.grid;
        assert gt == Toggled(g1, Slot(row, col, d));
        CarveEffect(g1, rows, cols, row, col, d);
        assert 0 <= n.0 < rows < U32 && 0 <= n.1 < cols < U32;
        var pos := ChangePosition(row, col, d);
        assert pos.x == n.0 && pos.y == n.1;
        UnvisitedShrinks(g0, g1, gt, rows, cols, n);
        RecursiveBacktrack(maze, pos.x, pos.y, d);
        ghost var g2 := maze.grid;
        assert WellFormed(g2, rows, cols) && Grows(gt, g2);
        assert Settled(g2, rows, cols, n.0, n.1);
        assert NewlySettled(gt, g2, rows, cols, n) && Counted(gt, g2, rows, cols, n);
        AfterVisit(g0, g1, g2, rows, cols, row, col, dirs, i);
        CarveKeepsInner(g0, g1, g2, rows, cols, row, col, d);
      } else {
        assert NeighbourDone(g1, rows, cols, row, col, d);
        ProgressSkip(g0, g1, rows, cols, row, col, dirs, i);
      }
    }
    ProgressEnd(g0, maze.grid, rows, cols, row, col, dirs);
  }

  /** Carving a closed slot between two in-grid neighbours, followed by
      changes at inner slots, changes only inner slots. */
  lemma CarveKeepsInner(g0: seq<seq<bool>>, g1: seq<seq<bool>>, g2: seq<seq<bool>>, rows: nat, cols: nat,
                        row: int, col: int, d: Direction)
    requires WellFormed(g0, rows, cols) && WellFormed(g1, rows, cols) && WellFormed(g2, rows, cols)
    requires InGrid(rows, cols, row, col) && d != None
    requires InGrid(rows, cols, Step(row, col, d).0, Step(row, col, d).1)
    requires OnlyInnerSlots(g0, g1, rows, cols)
    requires 0 <= Slot(row, col, d).0 < |g1| && 0 <= Slot(row, col, d).1 < |g1[Slot(row, col, d).0]|
    requires !At(g1, Slot(row, col, d))
    requires OnlyInnerSlots(Toggled(g1, Slot(row, col, d)), g2, rows, cols)
    ensures OnlyInnerSlots(g0, g2, rows, cols)
  {
    var gt := Toggled(g1, Slot(row, col, d));
    CarveShape(g1, rows, cols, row, col, d);
    ToggleInner(g1, rows, cols, row, col, d);
    OnlyInnerSlotsTrans(g0, g1, gt, rows, cols);
    OnlyInnerSlotsTrans(g0, gt, g2, rows, cols);
  }

  lemma ProgressStart(g0: seq<seq<bool>>, rows: nat, cols: nat, row: int, col: int, dirs: seq<Direction>)
    ensures Progress(g0, g0, rows, cols, row, col, dirs, 0)
  {
  }

  /** A direction whose neighbour is already done needs no carve. */
  lemma ProgressSkip(g0: seq<seq<bool>>, g: seq<seq<bool>>, rows: nat, cols: nat, row: int, col: int,
                     dirs: seq<Direction>, i: nat)
    requires Progress(g0, g, rows, cols, row, col, dirs, i) && i < |dirs|
    requires NeighbourDone(g, rows, cols, row, col, dirs[i])
    ensures Progress(g0, g, rows, cols, row, col, dirs, i + 1)
  {
  }

  /** Once all four directions are tried, the cell is settled. */
  lemma ProgressEnd(g0: seq<seq<bool>>, g: seq<seq<bool>>, rows: nat, cols: nat, row: int, col: int,
                    dirs: seq<Direction>)
    requires forall d :: d in dirs <==> d != None
    requires Progress(g0, g, rows, cols, row, col, dirs, |dirs|)
    ensures Grows(g0, g) && Settled(g, rows, cols, row, col)
    ensures NewlySettled(g0, g, rows, cols, (row, col)) && Counted(g0, g, rows, cols, (row, col))
  {
    forall e | e != None ensures NeighbourDone(g, rows, cols, row, col, e) {
      assert e in dirs;
      var k :| 0 <= k < |dirs| && dirs[k] == e;
    }
  }

  /** Opening the untouched cell `n` makes the untouched set strictly smaller. */
  lemma UnvisitedShrinks(g0: seq<seq<bool>>, g1: seq<seq<bool>>, gt: seq<seq<bool>>, rows: nat, cols: nat, n: (int, int))
    requires Grows(g0, g1) && Grows(g1, gt)
    requires InGrid(rows, cols, n.0, n.1) && !Opened(g1, n.0, n.1) && Opened(gt, n.0, n.1)
    ensures UnvisitedCells(gt, rows, cols) < UnvisitedCells(g0, rows, cols)
  {
    GrowsMonotone(g0, g1, rows, cols);
    GrowsMonotone(g1, gt, rows, cols);
    assert n in UnvisitedCells(g1, rows, cols);
    assert n !in UnvisitedCells(gt, rows, cols);
  }

  /** What one carving iteration keeps: the state `g1` before the carve
      towards `dirs[i]`, then a recursive call that ends in `g2`. */
  lemma AfterVisit(g0: seq<seq<bool>>, g1: seq<seq<bool>>, g2: seq<seq<bool>>, rows: nat, cols: nat,
                   row: int, col: int, dirs: seq<Direction>, i: nat)
    requires i < |dirs| && dirs[i] != None
    requires WellFormed(g1, rows, cols) && WellFormed(g2, rows, cols)
    requires InGrid(rows, cols, row, col)
    requires InGrid(rows, cols, Step(row, col, dirs[i]).0, Step(row, col, dirs[i]).1)
    requires !Opened(g1, Step(row, col, dirs[i]).0, Step(row, col, dirs[i]).1)
    requires Progress(g0, g1, rows, cols, row, col, dirs, i)
    requires var gt, n := Toggled(g1, Slot(row, col, dirs[i])), Step(row, col, dirs[i]);
             && Grows(gt, g2)
             && NewlySettled(gt, g2, rows, cols, n)
             && Counted(gt, g2, rows, cols, n)
             && Settled(g2, rows, cols, n.0, n.1)
    ensures Progress(g0, g2, rows, cols, row, col, dirs, i + 1)
  {
    var d := dirs[i];
    var n := Step(row, col, d);
    var gt := Toggled(g1, Slot(row, col, d));
    UntouchedSlot(g1, row, col, d);
    CarveShape(g1, rows, cols, row, col, d);
    CarveOpened(g1, rows, cols, row, col, d);
    GrowsTransitive(g0, g1, gt);
    GrowsTransitive(g0, gt, g2);
    GrowsTransitive(g1, gt, g2);
    VisitKeepsDone(g1, g2, rows, cols, row, col, dirs, i);
    VisitKeepsSettled(g0, g1, g2, rows, cols, row, col, d);
    VisitKeepsCount(g0, g1, g2, rows, cols, row, col, d);
  }

  lemma VisitKeepsDone(g1: seq<seq<bool>>, g2: seq<seq<bool>>, rows: nat, cols: nat,
                       row: int, col: int, dirs: seq<Direction>, i: nat)
    requires i < |dirs| && dirs[i] != None && Grows(g1, g2)
    requires forall k | 0 <= k < i :: NeighbourDone(g1, rows, cols, row, col, dirs[k])
    requires Opened(g2, Step(row, col, dirs[i]).0, Step(row, col, dirs[i]).1)
    ensures forall k | 0 <= k < i + 1 :: NeighbourDone(g2, rows, cols, row, col, dirs[k])
  {
    GrowsMonotone(g1, g2, rows, cols);
  }

  lemma VisitKeepsSettled(g0: seq<seq<bool>>, g1: seq<seq<bool>>, g2: seq<seq<bool>>, rows: nat, cols: nat,
                          row: int, col: int, d: Direction)
    requires d != None && WellFormed(g1, rows, cols)
    requires InGrid(rows, cols, row, col) && InGrid(rows, cols, Step(row, col, d).0, Step(row, col, d).1)
    requires !At(g1, Slot(row, col, d))
    requires Grows(g0, g1) && NewlySettled(g0, g1, rows, cols, (row, col))
    requires var gt := Toggled(g1, Slot(row, col, d));
             Grows(gt, g2) && NewlySettled(gt, g2, rows, cols, Step(row, col, d))
             && Settled(g2, rows, cols, Step(row, col, d).0, Step(row, col, d).1)
    ensures NewlySettled(g0, g2, rows, cols, (row, col))
  {
    var n := Step(row, col, d);
    var gt := Toggled(g1, Slot(row, col, d));
    CarveShape(g1, rows, cols, row, col, d);
    CarveOpened(g1, rows, cols, row, col, d);
    GrowsTransitive(g1, gt, g2);
    GrowsMonotone(g1, g2, rows, cols);
    forall r, c | InGrid(rows, cols, r, c) && Opened(g2, r, c) && !Opened(g0, r, c) && (r, c) != (row, col)
      ensures Settled(g2, rows, cols, r, c)
    {
      if Opened(g1, r, c) {
        assert Settled(g1, rows, cols, r, c);
      } else if (r, c) != n {
        assert !Opened(gt, r, c);
      }
    }
  }

  lemma VisitKeepsCount(g0: seq<seq<bool>>, g1: seq<seq<bool>>, g2: seq<seq<bool>>, rows: nat, cols: nat,
                        row: int, col: int, d: Direction)
    requires d != None && WellFormed(g1, rows, cols)
    requires InGrid(rows, cols, row, col) && InGrid(rows, cols, Step(row, col, d).0, Step(row, col, d).1)
    requires !Opened(g1, Step(row, col, d).0, Step(row, col, d).1)
    requires Grows(g0, g1) && Counted(g0, g1, rows, cols, (row, col))
    requires var gt := Toggled(g1, Slot(row, col, d));
             Grows(gt, g2) && Counted(gt, g2, rows, cols, Step(row, col, d))
    ensures Counted(g0, g2, rows, cols, (row, col))
  {
    var n := Step(row, col, d);
    var gt := Toggled(g1, Slot(row, col, d));
    CarveCount(g1, rows, cols, row, col, d);
    CarveOpened(g1, rows, cols, row, col, d);
    assert Opened(gt, n.0, n.1) && Opened(gt, row, col);
    GrowsKeepsOpened(gt, g2, row, col);
    if Opened(g0, row, col) {
      GrowsKeepsOpened(g0, g1, row, col);
    }
  }

  /** The top-level call from the cell (0, 0) with no incoming direction,
      on the freshly built matrix every run starts from: it carves one wall
      fewer than there are cells, every open wall lies between two cells
      (the frame and the corner posts stay closed), and once there are two
      cells every cell has an open slot. */
  method GenerateBacktrack(maze: Maze)
    requires maze.Valid() && maze.grid == FreshGrid(maze.rows, maze.cols)
    requires maze.rows >= 1 && maze.cols >= 1
    modifies maze
    ensures maze.Valid() && maze.rows == old(maze.rows) && maze.cols == old(maze.cols)
    ensures |OpenWalls(maze.grid)| == maze.rows * maze.cols - 1
    ensures forall p | p in OpenWalls(maze.grid) :: InnerSlot(maze.rows, maze.cols, p)
    ensures maze.rows * maze.cols >= 2 ==>
              forall r, c | InGrid(maze.rows, maze.cols, r, c) :: Opened(maze.grid, r, c)
  {
    FreshGridFacts(maze.rows, maze.cols);
    RecursiveBacktrack(maze, 0, 0, None);
    TreeFromFresh(maze.grid, maze.rows, maze.cols, (0, 0));
    FreshInnerWalls(maze.grid, maze.rows, maze.cols);
  }
}

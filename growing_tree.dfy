/** Growing tree: keep a list of cells; pick one at random, carve from it
    into one untouched neighbour and list that neighbour, or drop the cell
    from the list once it has no untouched neighbour left. */
module GrowingTrees {
  import opened Grid
  import opened Mazes
  import opened Solver

  function Pos(e: Frontier): (int, int)
  {
    (e.pos.x, e.pos.y)
  }

  /** The cells on the list. */
  function Listed(cells: seq<Frontier>): set<(int, int)>
  {
    set k | 0 <= k < |cells| :: Pos(cells[k])
  }

  /** Every listed cell lies in the maze. */
  predicate InMaze(rows: nat, cols: nat, cells: seq<Frontier>)
  {
    forall k | 0 <= k < |cells| :: InGrid(rows, cols, cells[k].pos.x, cells[k].pos.y)
  }

  /** No cell is on the list twice. */
  predicate Distinct(cells: seq<Frontier>)
  {
    forall a, b | 0 <= a < b < |cells| :: cells[a].pos != cells[b].pos
  }

  /** Either the start cell is opened (some carve happened), or the list
      holds at most the first entry. */
  predicate Begun(g: seq<seq<bool>>, first: Frontier, cells: seq<Frontier>)
  {
    Opened(g, first.pos.x, first.pos.y) || (|cells| <= 1 && forall k | 0 <= k < |cells| :: cells[k] == first)
  }

  /** Every listed cell other than the start is opened. */
  predicate ListOpened(g: seq<seq<bool>>, first: Frontier, cells: seq<Frontier>)
  {
    forall k | 0 <= k < |cells| :: cells[k].pos == first.pos || Opened(g, cells[k].pos.x, cells[k].pos.y)
  }

  /** Every cell reached since `g0`, and the start cell, is still listed or
      already settled. */
  ghost predicate Reached(g0: seq<seq<bool>>, g: seq<seq<bool>>, rows: nat, cols: nat, start: (int, int),
                          cells: seq<Frontier>)
  {
    forall r, c | InGrid(rows, cols, r, c) && ((Opened(g, r, c) && !Opened(g0, r, c)) || (r, c) == start) ::
      (r, c) in Listed(cells) || Settled(g, rows, cols, r, c)
  }

  /** The loop's state, given the matrix `g0` it started from, the first
      entry `first`, and the numbers of carves and erasures so far. */
  ghost predicate TreeState(g0: seq<seq<bool>>, g: seq<seq<bool>>, rows: nat, cols: nat, first: Frontier,
                            cells: seq<Frontier>, carves: nat, erases: nat)
  {
    && WellFormed(g, rows, cols) && Grows(g0, g)
    && InGrid(rows, cols, first.pos.x, first.pos.y)
    && InMaze(rows, cols, cells) && Distinct(cells)
    && Begun(g, first, cells)
    && ListOpened(g, first, cells)
    && Reached(g0, g, rows, cols, Pos(first), cells)
    && Counted(g0, g, rows, cols, Pos(first))
    && |OpenWalls(g)| == |OpenWalls(g0)| + carves
    && |cells| + erases == 1 + carves
  }

  /** `growingTree`: afterwards the start cell and every cell reached are
      settled, the loop ran twice per carve plus once, and only slots
      between two cells changed. From a freshly built matrix that is
      `2 * rows * cols - 1` iterations and `rows * cols - 1` carved walls,
      all between cells, reaching every cell. */
  method GrowingTree(maze: Maze) returns (ghost iterations: nat, ghost start: (int, int))
    requires maze.Valid() && maze.rows >= 1 && maze.cols >= 1
    modifies maze
    ensures maze.Valid() && maze.rows == old(maze.rows) && maze.cols == old(maze.cols)
    ensures Grows(old(maze.grid), maze.grid)
    ensures InGrid(maze.rows, maze.cols, start.0, start.1) && Settled(maze.grid, maze.rows, maze.cols, start.0, start.1)
    ensures NewlySettled(old(maze.grid), maze.grid, maze.rows, maze.cols, start)
    ensures Counted(old(maze.grid), maze.grid, maze.rows, maze.cols, start)
    ensures iterations == 2 * (|OpenWalls(maze.grid)| - |OpenWalls(old(maze.grid))|) + 1
    ensures OnlyInnerSlots(old(maze.grid), maze.grid, maze.rows, maze.cols)
    ensures old(maze.grid) == FreshGrid(maze.rows, maze.cols) ==>
              && |OpenWalls(maze.grid)| == maze.rows * maze.cols - 1
              && (forall p | p in OpenWalls(maze.grid) :: InnerSlot(maze.rows, maze.cols, p))
              && iterations == 2 * (maze.rows * maze.cols) - 1
              && (maze.rows * maze.cols >= 2 ==>
                    forall r, c | InGrid(maze.rows, maze.cols, r, c) :: Opened(maze.grid, r, c))
  {
    ghost var g0, rows, cols := maze.grid, maze.rows, maze.cols;
    var size := maze.GetSize();
    var x0 := Irand(0, size.x - 1);
    var y0 := Irand(0, size.y - 1);
    var first := Frontier(Vector2u(x0, y0), None);
    var cells := [first];
    start := Pos(first);
    ghost var carves, erases := 0, 0;
    iterations := 0;
    TreeStart(g0, rows, cols, first);
    while cells != []
      invariant maze.Valid() && maze.rows == rows && maze.cols == cols
      invariant TreeState(g0, maze.grid, rows, cols, first, cells, carves, erases)
      invariant iterations == carves + erases
      invariant WellFormed(g0, rows, cols) && OnlyInnerSlots(g0, maze.grid, rows, cols)
      decreases 2 * |UnvisitedCells(maze.grid, rows, cols)| + |cells|
    {
      ghost var g, before := maze.grid, cells;
      ghost var carved, picked;
      var dir;
      cells, carved, picked, dir := GrowStep(maze, cells);
      if carved {
        TreeCarve(g0, g, rows, cols, first, before, carves, erases, before[picked], dir);
        ToggleInner(g, rows, cols, before[picked].pos.x, before[picked].pos.y, dir);
        OnlyInnerSlotsTrans(g0, g, maze.grid, rows, cols);
        carves := carves + 1;
      } else {
        TreeErase(g0, g, rows, cols, first, before, carves, erases, picked);
        erases := erases + 1;
      }
      iterations := iterations + 1;
    }
    TreeDone(g0, maze.grid, rows, cols, first, carves, erases, iterations);
    if g0 == FreshGrid(rows, cols) {
      FreshInnerWalls(maze.grid, rows, cols);
    }
  }

  /** A carving pass: entry `i` was picked, the wall towards its untouched
      neighbour in `d` is the one slot flipped, and the entered cell, with
      `d` as the direction it was entered from, is appended. */
  ghost predicate CarvedFrom(g: seq<seq<bool>>, g': seq<seq<bool>>, rows: nat, cols: nat,
                             cells: seq<Frontier>, cells': seq<Frontier>, i: nat, d: Direction)
  {
    && i < |cells| && d != None
    && !NeighbourDone(g, rows, cols, cells[i].pos.x, cells[i].pos.y, d)
    && 0 <= Slot(cells[i].pos.x, cells[i].pos.y, d).0 < |g|
    && 0 <= Slot(cells[i].pos.x, cells[i].pos.y, d).1 < |g[Slot(cells[i].pos.x, cells[i].pos.y, d).0]|
    && g' == Toggled(g, Slot(cells[i].pos.x, cells[i].pos.y, d))
    && cells' == cells + [Frontier(ChangePosition(cells[i].pos.x, cells[i].pos.y, d), d)]
  }

  /** An erasing pass: entry `i` was picked, it is settled, the matrix is
      untouched and exactly that entry leaves the list. */
  ghost predicate ErasedAt(g: seq<seq<bool>>, g': seq<seq<bool>>, rows: nat, cols: nat,
                           cells: seq<Frontier>, cells': seq<Frontier>, i: nat)
  {
    && i < |cells|
    && Settled(g, rows, cols, cells[i].pos.x, cells[i].pos.y)
    && g' == g && cells' == cells[..i] + cells[i + 1..]
  }

  /** One pass of `growingTree`'s loop: pick an entry; carve from it into
      the first untouched neighbour of a shuffled direction list and list
      that neighbour, or, when it has none, drop the entry. */
  method GrowStep(maze: Maze, cells: seq<Frontier>)
    returns (cells': seq<Frontier>, ghost carved: bool, ghost i: nat, d: Direction)
    requires maze.Valid() && cells != [] && InMaze(maze.rows, maze.cols, cells)
    modifies maze
    ensures maze.Valid() && maze.rows == old(maze.rows) && maze.cols == old(maze.cols)
    ensures carved ==> CarvedFrom(old(maze.grid), maze.grid, maze.rows, maze.cols, cells, cells', i, d)
    ensures !carved ==> ErasedAt(old(maze.grid), maze.grid, maze.rows, maze.cols, cells, cells', i)
  {
    ghost var g := maze.grid;
    var cell := GetCell(cells);
    var k := Find(cells, cell);
    i := k;
    assert cells[k] == cell && InGrid(maze.rows, maze.cols, cell.pos.x, cell.pos.y);
    if HasUnvisitedNeighbors(cell.pos.x, cell.pos.y, maze) {
      d := CarveAny(maze, cell);
      cells' := cells + [Frontier(ChangePosition(cell.pos.x, cell.pos.y, d), d)];
      carved := true;
      assert CarvedFrom(g, maze.grid, maze.rows, maze.cols, cells, cells', i, d);
    } else {
      cells' := cells[..k] + cells[k + 1..];
      carved, d := false, None;
      assert ErasedAt(g, maze.grid, maze.rows, maze.cols, cells, cells', i);
    }
  }

  /** The inner loop of `growingTree`: walk a shuffled direction list and
      open the wall towards the first neighbour that is untouched. The cell
      is not settled, so some direction always qualifies. */
  method CarveAny(maze: Maze, cell: Frontier) returns (d: Direction)
    requires maze.Valid() && InGrid(maze.rows, maze.cols, cell.pos.x, cell.pos.y)
    requires !Settled(maze.grid, maze.rows, maze.cols, cell.pos.x, cell.pos.y)
    modifies maze
    ensures maze.Valid() && maze.rows == old(maze.rows) && maze.cols == old(maze.cols)
    ensures d != None && !NeighbourDone(old(maze.grid), maze.rows, maze.cols, cell.pos.x, cell.pos.y, d)
    ensures 0 <= Slot(cell.pos.x, cell.pos.y, d).0 < |old(maze.grid)|
    ensures 0 <= Slot(cell.pos.x, cell.pos.y, d).1 < |old(maze.grid)[Slot(cell.pos.x, cell.pos.y, d).0]|
    ensures maze.grid == Toggled(old(maze.grid), Slot(cell.pos.x, cell.pos.y, d))
  {
    ghost var g, rows, cols := maze.grid, maze.rows, maze.cols;
    var dirs := Shuffle(Dirs);
    ShuffledDirs(dirs);
    for k := 0 to |dirs|
      invariant maze.Valid() && maze.rows == rows && maze.cols == cols && maze.grid == g
      invariant Tried(g, rows, cols, cell, dirs[..k])
    {
      d := dirs[k];
      assert d in dirs;
      if !maze.IsVisited(cell.pos.x, cell.pos.y, d) {
        UntouchedSlot(g, cell.pos.x, cell.pos.y, d);
        ToggleInner(g, rows, cols, cell.pos.x, cell.pos.y, d);
        maze.ToggleWall(cell.pos.x, cell.pos.y, d);
        return;
      }
      TriedOneMore(g, rows, cols, cell, dirs, k);
    }
    assert dirs[..|dirs|] == dirs;
    AllDone(g, rows, cols, cell, dirs);
    assert false;
  }

  lemma TreeStart(g0: seq<seq<bool>>, rows: nat, cols: nat, first: Frontier)
    requires WellFormed(g0, rows, cols) && InGrid(rows, cols, first.pos.x, first.pos.y)
    ensures TreeState(g0, g0, rows, cols, first, [first], 0, 0)
  {
    ListedPush([], first);
    assert Listed([]) == {};
  }

  /** The neighbour of `cell` is done in each direction of `dirs`. */
  predicate Tried(g: seq<seq<bool>>, rows: nat, cols: nat, cell: Frontier, dirs: seq<Direction>)
  {
    forall j | 0 <= j < |dirs| :: NeighbourDone(g, rows, cols, cell.pos.x, cell.pos.y, dirs[j])
  }

  lemma TriedOneMore(g: seq<seq<bool>>, rows: nat, cols: nat, cell: Frontier, dirs: seq<Direction>, k: nat)
    requires k < |dirs| && Tried(g, rows, cols, cell, dirs[..k])
    requires NeighbourDone(g, rows, cols, cell.pos.x, cell.pos.y, dirs[k])
    ensures Tried(g, rows, cols, cell, dirs[..k + 1])
  {
    assert forall j | 0 <= j < k :: dirs[..k + 1][j] == dirs[..k][j];
  }

  /** All four directions done means the cell is settled. */
  lemma AllDone(g: seq<seq<bool>>, rows: nat, cols: nat, cell: Frontier, dirs: seq<Direction>)
    requires forall d :: d in dirs <==> d != None
    requires Tried(g, rows, cols, cell, dirs)
    ensures Settled(g, rows, cols, cell.pos.x, cell.pos.y)
  {
    forall e | e != None ensures NeighbourDone(g, rows, cols, cell.pos.x, cell.pos.y, e) {
      assert e in dirs;
      var j :| 0 <= j < |dirs| && dirs[j] == e;
    }
  }

  /** Dropping entry `i` leaves the other entries listed. */
  lemma ListedErase(cells: seq<Frontier>, i: nat)
    requires i < |cells|
    ensures Listed(cells) <= Listed(cells[..i] + cells[i + 1..]) + {Pos(cells[i])}
  {
    var cells' := cells[..i] + cells[i + 1..];
    forall p | p in Listed(cells) && p != Pos(cells[i]) ensures p in Listed(cells') {
      var k :| 0 <= k < |cells| && Pos(cells[k]) == p;
      assert cells'[if k < i then k else k - 1] == cells[k];
    }
  }

  /** An erasure: the picked entry, settled, leaves the list. */
  lemma TreeErase(g0: seq<seq<bool>>, g: seq<seq<bool>>, rows: nat, cols: nat, first: Frontier,
                  cells: seq<Frontier>, carves: nat, erases: nat, i: nat)
    requires TreeState(g0, g, rows, cols, first, cells, carves, erases)
    requires i < |cells| && Settled(g, rows, cols, cells[i].pos.x, cells[i].pos.y)
    ensures TreeState(g0, g, rows, cols, first, cells[..i] + cells[i + 1..], carves, erases + 1)
  {
    EraseList(g, rows, cols, first, cells, i);
    EraseDistinct(cells, i);
    EraseReach(g0, g, rows, cols, Pos(first), cells, i);
  }

  lemma EraseList(g: seq<seq<bool>>, rows: nat, cols: nat, first: Frontier, cells: seq<Frontier>, i: nat)
    requires i < |cells|
    requires InMaze(rows, cols, cells) && Begun(g, first, cells) && ListOpened(g, first, cells)
    ensures var cells' := cells[..i] + cells[i + 1..];
            InMaze(rows, cols, cells') && Begun(g, first, cells') && ListOpened(g, first, cells')
  {
    var cells' := cells[..i] + cells[i + 1..];
    assert forall k | 0 <= k < |cells'| :: cells'[k] == if k < i then cells[k] else cells[k + 1];
  }

  lemma EraseDistinct(cells: seq<Frontier>, i: nat)
    requires i < |cells| && Distinct(cells)
    ensures Distinct(cells[..i] + cells[i + 1..])
  {
    var cells' := cells[..i] + cells[i + 1..];
    assert forall k | 0 <= k < |cells'| :: cells'[k] == if k < i then cells[k] else cells[k + 1];
  }

  lemma EraseReach(g0: seq<seq<bool>>, g: seq<seq<bool>>, rows: nat, cols: nat, start: (int, int),
                   cells: seq<Frontier>, i: nat)
    requires i < |cells| && Settled(g, rows, cols, cells[i].pos.x, cells[i].pos.y)
    requires Reached(g0, g, rows, cols, start, cells)
    ensures Reached(g0, g, rows, cols, start, cells[..i] + cells[i + 1..])
  {
    ListedErase(cells, i);
  }

  /** Appending an entry lists its cell besides the old ones. */
  lemma ListedPush(cells: seq<Frontier>, e: Frontier)
    ensures Listed(cells + [e]) == Listed(cells) + {Pos(e)}
  {
    var cells' := cells + [e];
    assert cells'[|cells|] == e;
    forall p | p in Listed(cells') ensures p in Listed(cells) + {Pos(e)} {
      var k :| 0 <= k < |cells'| && Pos(cells'[k]) == p;
      if k < |cells| { assert cells'[k] == cells[k]; }
    }
    forall p | p in Listed(cells) ensures p in Listed(cells') {
      var k :| 0 <= k < |cells| && Pos(cells[k]) == p;
      assert cells'[k] == cells[k];
    }
  }

  /** A carve from the picked entry towards an untouched neighbour, which
      joins the list; the measure drops. */
  lemma TreeCarve(g0: seq<seq<bool>>, g: seq<seq<bool>>, rows: nat, cols: nat, first: Frontier,
                  cells: seq<Frontier>, carves: nat, erases: nat, cell: Frontier, d: Direction)
    requires TreeState(g0, g, rows, cols, first, cells, carves, erases)
    requires rows < U32 && cols < U32
    requires cell in cells && d != None
    requires !NeighbourDone(g, rows, cols, cell.pos.x, cell.pos.y, d)
    ensures var g', e := Toggled(g, Slot(cell.pos.x, cell.pos.y, d)), Frontier(ChangePosition(cell.pos.x, cell.pos.y, d), d);
            && TreeState(g0, g', rows, cols, first, cells + [e], carves + 1, erases)
            && |UnvisitedCells(g', rows, cols)| < |UnvisitedCells(g, rows, cols)|
  {
    var (row, col) := Pos(cell);
    var n := Step(row, col, d);
    assert InGrid(rows, cols, row, col) by {
      var k := Find(cells, cell);
      assert cells[k] == cell;
    }
    UntouchedSlot(g, row, col, d);
    var g' := Toggled(g, Slot(row, col, d));
    assert ChangePosition(row, col, d) == Vector2u(n.0, n.1);
    CarveShape(g, rows, cols, row, col, d);
    CarveOpened(g, rows, cols, row, col, d);
    GrowsTransitive(g0, g, g');
    CarveList(g, g', rows, cols, first, cells, cell, d);
    CarveDistinct(g, first, cells, cell, d);
    CarveReach(g0, g, g', rows, cols, first, cells, cell, d);
    CarveCounts(g0, g, g', rows, cols, first, cells, cell, d);
    UnvisitedCard(g, g', rows, cols, n);
  }

  /** The list facts after a carve. */
  lemma CarveList(g: seq<seq<bool>>, g': seq<seq<bool>>, rows: nat, cols: nat,
                  first: Frontier, cells: seq<Frontier>, cell: Frontier, d: Direction)
    requires rows < U32 && cols < U32
    requires cell in cells && d != None
    requires InMaze(rows, cols, cells) && Begun(g, first, cells) && ListOpened(g, first, cells)
    requires InGrid(rows, cols, cell.pos.x, cell.pos.y)
    requires InGrid(rows, cols, Step(cell.pos.x, cell.pos.y, d).0, Step(cell.pos.x, cell.pos.y, d).1)
    requires Grows(g, g') && Opened(g', cell.pos.x, cell.pos.y)
    requires Opened(g', Step(cell.pos.x, cell.pos.y, d).0, Step(cell.pos.x, cell.pos.y, d).1)
    ensures var n := Step(cell.pos.x, cell.pos.y, d);
            var cells' := cells + [Frontier(Vector2u(n.0, n.1), d)];
            InMaze(rows, cols, cells') && Begun(g', first, cells') && ListOpened(g', first, cells')
  {
    var n := Step(cell.pos.x, cell.pos.y, d);
    var cells' := cells + [Frontier(Vector2u(n.0, n.1), d)];
    GrowsMonotone(g, g', rows, cols);
    assert forall k | 0 <= k < |cells| :: cells'[k] == cells[k];
    if !Opened(g, first.pos.x, first.pos.y) {
      assert cell == first;
    }
  }

  /** The entered neighbour was untouched, so it is not listed yet. */
  lemma CarveDistinct(g: seq<seq<bool>>, first: Frontier, cells: seq<Frontier>, cell: Frontier, d: Direction)
    requires cell in cells && d != None
    requires Distinct(cells) && Begun(g, first, cells) && ListOpened(g, first, cells)
    requires !Opened(g, Step(cell.pos.x, cell.pos.y, d).0, Step(cell.pos.x, cell.pos.y, d).1)
    requires 0 <= Step(cell.pos.x, cell.pos.y, d).0 < U32 && 0 <= Step(cell.pos.x, cell.pos.y, d).1 < U32
    ensures var n := Step(cell.pos.x, cell.pos.y, d);
            Distinct(cells + [Frontier(Vector2u(n.0, n.1), d)])
  {
    var n := Step(cell.pos.x, cell.pos.y, d);
    var e := Frontier(Vector2u(n.0, n.1), d);
    var cells' := cells + [e];
    assert cell == cells[Find(cells, cell)];
    assert forall k | 0 <= k < |cells| :: cells'[k] == cells[k];
  }

  /** The reach invariant after a carve: the new neighbour is listed. */
  lemma CarveReach(g0: seq<seq<bool>>, g: seq<seq<bool>>, g': seq<seq<bool>>, rows: nat, cols: nat,
                   first: Frontier, cells: seq<Frontier>, cell: Frontier, d: Direction)
    requires rows < U32 && cols < U32 && d != None
    requires Pos(cell) in Listed(cells)
    requires Reached(g0, g, rows, cols, Pos(first), cells)
    requires Grows(g, g')
    requires forall r, c :: (r, c) != Pos(cell) && (r, c) != Step(cell.pos.x, cell.pos.y, d) ==>
               Opened(g', r, c) == Opened(g, r, c)
    requires InGrid(rows, cols, Step(cell.pos.x, cell.pos.y, d).0, Step(cell.pos.x, cell.pos.y, d).1)
    ensures var n := Step(cell.pos.x, cell.pos.y, d);
            Reached(g0, g', rows, cols, Pos(first), cells + [Frontier(Vector2u(n.0, n.1), d)])
  {
    var n := Step(cell.pos.x, cell.pos.y, d);
    var e := Frontier(Vector2u(n.0, n.1), d);
    ListedPush(cells, e);
    GrowsMonotone(g, g', rows, cols);
  }

  /** The counters after a carve. */
  lemma CarveCounts(g0: seq<seq<bool>>, g: seq<seq<bool>>, g': seq<seq<bool>>, rows: nat, cols: nat,
                    first: Frontier, cells: seq<Frontier>, cell: Frontier, d: Direction)
    requires WellFormed(g, rows, cols) && Grows(g0, g)
    requires cell in cells && d != None
    requires InGrid(rows, cols, cell.pos.x, cell.pos.y)
    requires InGrid(rows, cols, Step(cell.pos.x, cell.pos.y, d).0, Step(cell.pos.x, cell.pos.y, d).1)
    requires !Opened(g, Step(cell.pos.x, cell.pos.y, d).0, Step(cell.pos.x, cell.pos.y, d).1)
    requires Begun(g, first, cells) && ListOpened(g, first, cells)
    requires Counted(g0, g, rows, cols, Pos(first))
    requires g' == Toggled(g, Slot(cell.pos.x, cell.pos.y, d))
    ensures Counted(g0, g', rows, cols, Pos(first))
    ensures |OpenWalls(g')| == |OpenWalls(g)| + 1
  {
    var (row, col) := Pos(cell);
    var n := Step(row, col, d);
    var start := Pos(first);
    CarveCount(g, rows, cols, row, col, d);
    CarveShape(g, rows, cols, row, col, d);
    CarveOpened(g, rows, cols, row, col, d);
    assert cell == cells[Find(cells, cell)];
    if !Opened(g, start.0, start.1) {
      assert cell == first;
      assert !Opened(g0, start.0, start.1) by {
        if Opened(g0, start.0, start.1) {
          GrowsKeepsOpened(g0, g, start.0, start.1);
        }
      }
    } else {
      GrowsKeepsOpened(g, g', start.0, start.1);
    }
  }

  /** Opening the untouched cell `n` lowers the number of untouched cells. */
  lemma UnvisitedCard(g: seq<seq<bool>>, g': seq<seq<bool>>, rows: nat, cols: nat, n: (int, int))
    requires Grows(g, g')
    requires InGrid(rows, cols, n.0, n.1) && !Opened(g, n.0, n.1) && Opened(g', n.0, n.1)
    ensures |UnvisitedCells(g', rows, cols)| < |UnvisitedCells(g, rows, cols)|
  {
    var u, u' := UnvisitedCells(g, rows, cols), UnvisitedCells(g', rows, cols);
    GrowsMonotone(g, g', rows, cols);
    assert n in u && n !in u';
    assert u' <= u - {n};
    SubsetCard(u', u - {n});
  }

  lemma {:induction false} SubsetCard<T>(a: set<T>, b: set<T>)
    requires a <= b
    ensures |a| <= |b|
    decreases |b|
  {
    if b != {} {
      var x :| x in b;
      SubsetCard(a - {x}, b - {x});
    }
  }

  /** An empty list: every cell reached, and the start, is settled. */
  lemma TreeDone(g0: seq<seq<bool>>, g: seq<seq<bool>>, rows: nat, cols: nat, first: Frontier,
                 carves: nat, erases: nat, iterations: nat)
    requires TreeState(g0, g, rows, cols, first, [], carves, erases)
    requires iterations == carves + erases
    ensures WellFormed(g, rows, cols) && Grows(g0, g)
    ensures Settled(g, rows, cols, Pos(first).0, Pos(first).1)
    ensures NewlySettled(g0, g, rows, cols, Pos(first))
    ensures Counted(g0, g, rows, cols, Pos(first))
    ensures iterations == 2 * (|OpenWalls(g)| - |OpenWalls(g0)|) + 1
    ensures g0 == FreshGrid(rows, cols) ==>
              && |OpenWalls(g)| == rows * cols - 1
              && iterations == 2 * (rows * cols) - 1
              && (rows * cols >= 2 ==> forall r, c | InGrid(rows, cols, r, c) :: Opened(g, r, c))
  {
    assert Listed([]) == {};
    if g0 == FreshGrid(rows, cols) {
      FreshGridFacts(rows, cols);
      FreshOutcome(g0, g, rows, cols, Pos(first));
    }
  }

  /** From a matrix with nothing opened, every opened cell was opened by
      the run. */
  lemma FreshOutcome(g0: seq<seq<bool>>, g: seq<seq<bool>>, rows: nat, cols: nat, start: (int, int))
    requires forall r, c :: !Opened(g0, r, c)
    requires OpenWalls(g0) == {} && VisitedCells(g0, rows, cols) == {}
    requires WellFormed(g, rows, cols) && InGrid(rows, cols, start.0, start.1)
    requires Settled(g, rows, cols, start.0, start.1)
    requires NewlySettled(g0, g, rows, cols, start)
    requires Counted(g0, g, rows, cols, start)
    ensures |OpenWalls(g)| == rows * cols - 1
    ensures rows * cols >= 2 ==> forall r, c | InGrid(rows, cols, r, c) :: Opened(g, r, c)
  {
    forall r, c | InGrid(rows, cols, r, c) && Opened(g, r, c) ensures Settled(g, rows, cols, r, c) {
      assert !Opened(g0, r, c);
    }
    assert !Opened(g0, start.0, start.1);
    assert |VisitedCells(g, rows, cols)| == |OpenWalls(g)| + (if Opened(g, start.0, start.1) then 1 else 0);
    TreeFromFresh(g, rows, cols, start);
  }
}

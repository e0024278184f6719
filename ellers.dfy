/** Eller's algorithm: one row at a time, every cell of the row belongs to a
    set; adjacent cells of different sets may be joined (always on the last
    row), then every set carries at least one cell down into the next row. */
module Ellers {
  import opened Grid
  import opened Mazes
  import opened Solver

  /** The source's `cellSets` map is ordered by a comparator that looks only
      at `.y`, so it is a map from column to set id. */
  type CellSets = map<int, int>

  /** `sets`: set id to the cells of that set, in insertion order. */
  type Sets = map<int, seq<Vector2u>>

  /** The columns of a list of cells. */
  function Cols(s: seq<Vector2u>): set<int>
  {
    set k | 0 <= k < |s| :: s[k].y as int
  }

  /** The two maps describe the same partition of the row's columns: every
      column names a live set that holds it, and every live set is
      non-empty and holds only columns that name it. */
  ghost predicate Consistent(cellSets: CellSets, sets: Sets, cols: int)
  {
    && (forall c | c in cellSets :: 0 <= c < cols && cellSets[c] in sets && c in Cols(sets[cellSets[c]]))
    && (forall id | id in sets :: sets[id] != [])
    && (forall id, k | id in sets && 0 <= k < |sets[id]| ::
          sets[id][k].y as int in cellSets && cellSets[sets[id][k].y as int] == id)
  }

  /** Every live id was handed out before `bound`. */
  ghost predicate IdsBelow(sets: Sets, bound: int)
  {
    forall id | id in sets :: 1 <= id < bound
  }

  /** `mergeSets`: every cell of `set2` is re-pointed to `set1` and appended
      to it, then `set2` is dropped. */
  method MergeSets(cellSets: CellSets, sets: Sets, set1: int, set2: int) returns (cs: CellSets, ss: Sets)
    requires set1 in sets && set2 in sets && set1 != set2
    requires Held(cellSets, sets[set2])
    ensures ss.Keys == sets.Keys - {set2}
    ensures ss[set1] == sets[set1] + sets[set2]
    ensures forall id | id in ss && id != set1 :: ss[id] == sets[id]
    ensures cs.Keys == cellSets.Keys
    ensures forall c | c in cs :: cs[c] == if c in Cols(sets[set2]) then set1 else cellSets[c]
  {
    cs, ss := cellSets, sets;
    var moved := sets[set2];
    assert sets[set1] + moved[..0] == sets[set1];
    assert ss == sets[set1 := sets[set1] + moved[..0]];
    for k := 0 to |moved|
      invariant cs.Keys == cellSets.Keys
      invariant forall c | c in cs :: cs[c] == if c in Cols(moved[..k]) then set1 else cellSets[c]
      invariant ss == sets[set1 := sets[set1] + moved[..k]]
    {
      var cell := moved[k];
      assert moved[..k + 1] == moved[..k] + [cell];
      assert Cols(moved[..k + 1]) == Cols(moved[..k]) + {cell.y as int} by {
        ColsPush(moved[..k], cell);
      }
      assert sets[set1] + moved[..k + 1] == (sets[set1] + moved[..k]) + [cell];
      cs := cs[cell.y as int := set1];
      ss := ss[set1 := ss[set1] + [cell]];
    }
    assert moved[..|moved|] == moved;
    ss := ss - {set2};
  }

  lemma ColsPush(s: seq<Vector2u>, v: Vector2u)
    ensures Cols(s + [v]) == Cols(s) + {v.y as int}
  {
    var s' := s + [v];
    assert s'[|s|] == v;
    forall c | c in Cols(s') ensures c in Cols(s) + {v.y as int} {
      var k :| 0 <= k < |s'| && s'[k].y as int == c;
      if k < |s| { assert s'[k] == s[k]; }
    }
    forall c | c in Cols(s) ensures c in Cols(s') {
      var k :| 0 <= k < |s| && s[k].y as int == c;
      assert s'[k] == s[k];
    }
  }

  /** Merging two different sets of a consistent pair keeps it consistent
      and leaves one set fewer. */
  lemma MergeKeeps(cellSets: CellSets, sets: Sets, cols: int, set1: int, set2: int, cs: CellSets, ss: Sets)
    requires Consistent(cellSets, sets, cols)
    requires set1 in sets && set2 in sets && set1 != set2
    requires ss.Keys == sets.Keys - {set2}
    requires ss[set1] == sets[set1] + sets[set2]
    requires forall id | id in ss && id != set1 :: ss[id] == sets[id]
    requires cs.Keys == cellSets.Keys
    requires forall c | c in cs :: cs[c] == if c in Cols(sets[set2]) then set1 else cellSets[c]
    ensures Consistent(cs, ss, cols)
    ensures |ss| == |sets| - 1
  {
    MergeColumns(cellSets, sets, cols, set1, set2, cs, ss);
    MergeMembers(cellSets, sets, cols, set1, set2, cs, ss);
    assert ss.Keys == sets.Keys - {set2};
  }

  lemma ColsMember(s: seq<Vector2u>, k: int)
    requires 0 <= k < |s|
    ensures s[k].y as int in Cols(s)
  {
  }

  lemma ColsAppend(a: seq<Vector2u>, b: seq<Vector2u>)
    ensures Cols(a + b) == Cols(a) + Cols(b)
  {
    var s := a + b;
    forall c | c in Cols(s) ensures c in Cols(a) + Cols(b) {
      var k :| 0 <= k < |s| && s[k].y as int == c;
      if k < |a| { assert s[k] == a[k]; } else { assert s[k] == b[k - |a|]; }
    }
    forall c | c in Cols(a) ensures c in Cols(s) {
      var k :| 0 <= k < |a| && a[k].y as int == c;
      assert s[k] == a[k];
    }
    forall c | c in Cols(b) ensures c in Cols(s) {
      var k :| 0 <= k < |b| && b[k].y as int == c;
      assert s[|a| + k] == b[k];
    }
  }

  /** A column that names a set is one of that set's columns. */
  lemma ColsNames(cellSets: CellSets, sets: Sets, cols: int, id: int, c: int)
    requires Consistent(cellSets, sets, cols)
    requires id in sets && c in Cols(sets[id])
    ensures c in cellSets && cellSets[c] == id
  {
    var k :| 0 <= k < |sets[id]| && sets[id][k].y as int == c;
  }

  lemma MergeColumns(cellSets: CellSets, sets: Sets, cols: int, set1: int, set2: int, cs: CellSets, ss: Sets)
    requires Consistent(cellSets, sets, cols)
    requires set1 in sets && set2 in sets && set1 != set2
    requires ss.Keys == sets.Keys - {set2}
    requires ss[set1] == sets[set1] + sets[set2]
    requires forall id | id in ss && id != set1 :: ss[id] == sets[id]
    requires cs.Keys == cellSets.Keys
    requires forall c | c in cs :: cs[c] == if c in Cols(sets[set2]) then set1 else cellSets[c]
    ensures forall c | c in cs :: 0 <= c < cols && cs[c] in ss && c in Cols(ss[cs[c]])
  {
    ColsAppend(sets[set1], sets[set2]);
  }

  lemma MergeMembers(cellSets: CellSets, sets: Sets, cols: int, set1: int, set2: int, cs: CellSets, ss: Sets)
    requires Consistent(cellSets, sets, cols)
    requires set1 in sets && set2 in sets && set1 != set2
    requires ss.Keys == sets.Keys - {set2}
    requires ss[set1] == sets[set1] + sets[set2]
    requires forall id | id in ss && id != set1 :: ss[id] == sets[id]
    requires cs.Keys == cellSets.Keys
    requires forall c | c in cs :: cs[c] == if c in Cols(sets[set2]) then set1 else cellSets[c]
    ensures forall id | id in ss :: ss[id] != []
    ensures forall id, k | id in ss && 0 <= k < |ss[id]| :: ss[id][k].y as int in cs && cs[ss[id][k].y as int] == id
  {
    forall id, k | id in ss && 0 <= k < |ss[id]| ensures ss[id][k].y as int in cs && cs[ss[id][k].y as int] == id {
      var c := ss[id][k].y as int;
      if id == set1 && k >= |sets[set1]| {
        assert ss[id][k] == sets[set2][k - |sets[set1]|];
        ColsMember(sets[set2], k - |sets[set1]|);
      } else {
        assert ss[id][k] == sets[id][k];
        if c in Cols(sets[set2]) {
          ColsNames(cellSets, sets, cols, set2, c);
        }
      }
    }
  }

  /** The first inner loop of `ellers`: every column of the row that no
      carried set holds gets a set of its own, with a fresh id drawn from
      the counter. Fresh ids are above every live id, so the branch that
      would extend an existing set with a fresh id is never taken. */
  method SeedRow(cellSets: CellSets, sets: Sets, setCounter: int, row: int, cols: int)
    returns (cs: CellSets, ss: Sets, counter: int)
    requires 0 <= row < U32 && 0 <= cols < U32
    requires Consistent(cellSets, sets, cols) && IdsBelow(sets, setCounter) && setCounter >= 1
    ensures Consistent(cs, ss, cols) && IdsBelow(ss, counter)
    ensures forall c :: c in cs <==> 0 <= c < cols
    ensures forall c | c in cellSets :: cs[c] == cellSets[c]
    ensures forall id | id in sets :: id in ss && ss[id] == sets[id]
    ensures forall c | c in cs && c !in cellSets :: setCounter <= cs[c] < counter && ss[cs[c]] == [Vector2u(row, c)]
    ensures |ss| - |sets| == |cs| - |cellSets| == counter - setCounter
  {
    cs, ss, counter := cellSets, sets, setCounter;
    for col := 0 to cols
      invariant Seeded(cellSets, sets, setCounter, row, cols, col, cs, ss, counter)
    {
      if col !in cs {
        var cell := Vector2u(row, col);
        SeedStep(cellSets, sets, setCounter, row, cols, col, cs, ss, counter);
        cs := cs[col := counter];
        if counter in ss {
          assert false;
        } else {
          ss := ss[counter := [cell]];
        }
        counter := counter + 1;
      }
    }
  }

  /** The state of `SeedRow` once the columns below `col` hold a set. */
  ghost predicate Seeded(cellSets: CellSets, sets: Sets, setCounter: int, row: int, cols: int, col: int,
                         cs: CellSets, ss: Sets, counter: int)
  {
    && 0 <= row < U32 && cols < U32
    && Consistent(cs, ss, cols) && IdsBelow(ss, counter) && counter >= setCounter
    && (forall c :: c in cs <==> (c in cellSets || 0 <= c < col))
    && (forall c | c in cellSets :: cs[c] == cellSets[c])
    && (forall id | id in sets :: id in ss && ss[id] == sets[id])
    && (forall c | c in cs && c !in cellSets :: 0 <= c < cols && setCounter <= cs[c] < counter && ss[cs[c]] == [Vector2u(row, c)])
    && |ss| - |sets| == |cs| - |cellSets| == counter - setCounter
  }

  /** One column of `SeedRow`: an unheld column gets a fresh singleton set. */
  lemma SeedStep(cellSets: CellSets, sets: Sets, setCounter: int, row: int, cols: int, col: int,
                 cs: CellSets, ss: Sets, counter: int)
    requires 0 <= row < U32 && 0 <= col < cols < U32 && setCounter >= 1
    requires Seeded(cellSets, sets, setCounter, row, cols, col, cs, ss, counter) && col !in cs
    ensures counter !in ss
    ensures Seeded(cellSets, sets, setCounter, row, cols, col + 1,
                   cs[col := counter], ss[counter := [Vector2u(row, col)]], counter + 1)
  {
    var cell := Vector2u(row, col);
    SeedKeeps(cs, ss, cols, counter, cell);
    var cs', ss' := cs[col := counter], ss[counter := [cell]];
    assert |ss'| == |ss| + 1;
    assert |cs'| == |cs| + 1;
    assert IdsBelow(ss', counter + 1);
    forall c | c in cs' && c !in cellSets
      ensures 0 <= c < cols && setCounter <= cs'[c] < counter + 1 && ss'[cs'[c]] == [Vector2u(row, c)]
    {
      if c != col {
        assert cs[c] < counter;
      }
    }
    forall c | c in cellSets ensures cs'[c] == cellSets[c] {
      assert c != col;
    }
  }

  /** Giving an unheld column a set of its own under an unused id keeps the
      pair consistent. */
  lemma SeedKeeps(cellSets: CellSets, sets: Sets, cols: int, id: int, cell: Vector2u)
    requires Consistent(cellSets, sets, cols) && IdsBelow(sets, id)
    requires cell.y as int !in cellSets && cell.y < cols
    ensures Consistent(cellSets[cell.y as int := id], sets[id := [cell]], cols)
  {
    var cs, ss := cellSets[cell.y as int := id], sets[id := [cell]];
    assert Cols([cell]) == {cell.y as int} by {
      ColsMember([cell], 0);
    }
    forall c | c in cs ensures 0 <= c < cols && cs[c] in ss && c in Cols(ss[cs[c]]) {
      if c != cell.y as int {
        assert cellSets[c] != id;
      }
    }
  }

  /** The wall to the right of every column of `row` from `from` on is
      still closed. */
  predicate ClosedRight(g: seq<seq<bool>>, row: int, from: int, cols: int)
  {
    forall c | from <= c < cols - 1 :: !At(g, Slot(row, c, Right))
  }

  /** Only matrix line `i` may differ between `g` and `g'`. */
  ghost predicate OtherLinesKept(g: seq<seq<bool>>, g': seq<seq<bool>>, i: int)
  {
    |g'| == |g| && forall k | 0 <= k < |g| && k != i :: g'[k] == g[k]
  }

  /** The second inner loop of `ellers`: walk the row left to right and join
      a column to its right neighbour when their sets differ, on a coin flip
      for every row but the last and always on the last. Joining opens the
      wall between them and merges the right set into the left one. On the
      last row this leaves a single set; when the row's walls start closed,
      every join opens a wall and removes a set. */
  method HorizontalPass(maze: Maze, cellSets: CellSets, sets: Sets, row: int) returns (cs: CellSets, ss: Sets)
    requires maze.Valid() && 0 <= row < maze.rows && maze.cols >= 1
    requires Consistent(cellSets, sets, maze.cols) && forall c :: c in cellSets <==> 0 <= c < maze.cols
    modifies maze
    ensures maze.Valid() && maze.rows == old(maze.rows) && maze.cols == old(maze.cols)
    ensures Consistent(cs, ss, maze.cols) && cs.Keys == cellSets.Keys && ss.Keys <= sets.Keys
    ensures OtherLinesKept(old(maze.grid), maze.grid, 2 * row + 1)
    ensures row == maze.rows - 1 ==> |ss| == 1
    ensures ClosedRight(old(maze.grid), row, 0, maze.cols) ==>
              Grows(old(maze.grid), maze.grid) && |OpenWalls(maze.grid)| + |ss| == |OpenWalls(old(maze.grid))| + |sets|
    ensures OnlyInnerSlots(old(maze.grid), maze.grid, maze.rows, maze.cols)
  {
    ghost var g0, rows, cols := maze.grid, maze.rows, maze.cols;
    ghost var closed := ClosedRight(g0, row, 0, cols);
    cs, ss := cellSets, sets;
    for col := 0 to maze.cols - 1
      invariant maze.Valid() && maze.rows == rows && maze.cols == cols
      invariant Swept(g0, maze.grid, cellSets, sets, rows, cols, row, col, closed, cs, ss)
      invariant WellFormed(g0, rows, cols) && OnlyInnerSlots(g0, maze.grid, rows, cols)
    {
      ghost var g := maze.grid;
      cs, ss := SweepStep(maze, g0, cellSets, sets, row, col, closed, cs, ss);
      OnlyInnerSlotsTrans(g0, g, maze.grid, rows, cols);
    }
    SweptDone(g0, maze.grid, cellSets, sets, rows, cols, row, closed, cs, ss);
  }

  /** One column of `HorizontalPass`: maybe join `col` to `col + 1`. */
  method SweepStep(maze: Maze, ghost g0: seq<seq<bool>>, ghost cellSets: CellSets, ghost sets: Sets,
                   row: int, col: int, ghost closed: bool, cs: CellSets, ss: Sets) returns (cs': CellSets, ss': Sets)
    requires maze.Valid() && col < maze.cols - 1
    requires Swept(g0, maze.grid, cellSets, sets, maze.rows, maze.cols, row, col, closed, cs, ss)
    modifies maze
    ensures maze.Valid() && maze.rows == old(maze.rows) && maze.cols == old(maze.cols)
    ensures Swept(g0, maze.grid, cellSets, sets, maze.rows, maze.cols, row, col + 1, closed, cs', ss')
    ensures JoinedAt(old(maze.grid), maze.grid, row, col, cs, ss, cs', ss') ||
            (maze.grid == old(maze.grid) && cs' == cs && ss' == ss)
    ensures row == maze.rows - 1 && cs[col] != cs[col + 1] ==>
              JoinedAt(old(maze.grid), maze.grid, row, col, cs, ss, cs', ss')
    ensures OnlyInnerSlots(old(maze.grid), maze.grid, maze.rows, maze.cols)
  {
    var carve: bool;
    if row != maze.rows - 1 {
      var coin := Irand(0, 100);
      carve := coin > 50 && cs[col] != cs[col + 1];
    } else {
      carve := cs[col] != cs[col + 1];
    }
    if carve {
      ghost var g := maze.grid;
      ToggleInner(g, maze.rows, maze.cols, row, col, Right);
      maze.ToggleWall(row, col, Right);
      var set1, set2 := cs[col], cs[col + 1];
      SweptNames(g0, g, cellSets, sets, maze.rows, maze.cols, row, col, closed, cs, ss);
      cs', ss' := MergeSets(cs, ss, set1, set2);
      JoinStep(g0, g, maze.grid, cellSets, sets, maze.rows, maze.cols, row, col, closed, cs, ss, cs', ss');
      assert JoinedAt(g, maze.grid, row, col, cs, ss, cs', ss');
    } else {
      cs', ss' := cs, ss;
      assert maze.grid == old(maze.grid);
    }
  }

  /** A join of column `col` to `col + 1`: their sets differ, the wall
      between them is the one slot flipped, and the right set is merged
      into the left one as `mergeSets` does. */
  ghost predicate JoinedAt(g: seq<seq<bool>>, g': seq<seq<bool>>, row: int, col: int,
                           cs: CellSets, ss: Sets, cs': CellSets, ss': Sets)
  {
    && col in cs && col + 1 in cs && cs[col] != cs[col + 1] && cs[col] in ss && cs[col + 1] in ss
    && 0 <= Slot(row, col, Right).0 < |g| && 0 <= Slot(row, col, Right).1 < |g[Slot(row, col, Right).0]|
    && g' == Toggled(g, Slot(row, col, Right))
    && ss'.Keys == ss.Keys - {cs[col + 1]}
    && ss'[cs[col]] == ss[cs[col]] + ss[cs[col + 1]]
    && (forall id | id in ss' && id != cs[col] :: ss'[id] == ss[id])
    && cs'.Keys == cs.Keys
    && (forall c | c in cs' :: cs'[c] == if c in Cols(ss[cs[col + 1]]) then cs[col] else cs[c])
  }

  /** The state of `HorizontalPass` once the walls right of the columns
      below `col` have been considered. */
  ghost predicate Swept(g0: seq<seq<bool>>, g: seq<seq<bool>>, cellSets: CellSets, sets: Sets,
                        rows: nat, cols: nat, row: int, col: int, closed: bool, cs: CellSets, ss: Sets)
  {
    && WellFormed(g, rows, cols) && 0 <= row < rows && 0 <= col < cols
    && Consistent(cs, ss, cols) && cs.Keys == cellSets.Keys && ss.Keys <= sets.Keys
    && (forall c :: c in cs <==> 0 <= c < cols)
    && OtherLinesKept(g0, g, 2 * row + 1)
    && (row == rows - 1 ==> forall c | 0 <= c <= col :: cs[c] == cs[0])
    && (closed ==> ClosedRight(g, row, col, cols) && Grows(g0, g))
    && (closed ==> |OpenWalls(g)| + |ss| == |OpenWalls(g0)| + |sets|)
  }

  /** The two columns to be joined name sets whose columns are all held. */
  lemma SweptNames(g0: seq<seq<bool>>, g: seq<seq<bool>>, cellSets: CellSets, sets: Sets,
                   rows: nat, cols: nat, row: int, col: int, closed: bool, cs: CellSets, ss: Sets)
    requires Swept(g0, g, cellSets, sets, rows, cols, row, col, closed, cs, ss) && col < cols - 1
    ensures cs[col] in ss && cs[col + 1] in ss
    ensures Held(cs, ss[cs[col + 1]])
  {
    var id := cs[col + 1];
    assert id in ss;
    forall k | 0 <= k < |ss[id]| ensures ss[id][k].y as int in cs {
    }
  }

  /** Every cell of `s` is in a column `cs` holds. */
  predicate Held(cs: CellSets, s: seq<Vector2u>)
  {
    forall k | 0 <= k < |s| :: s[k].y as int in cs
  }

  /** One join of `HorizontalPass` keeps its state. */
  lemma JoinStep(g0: seq<seq<bool>>, g: seq<seq<bool>>, g': seq<seq<bool>>, cellSets: CellSets, sets: Sets,
                 rows: nat, cols: nat, row: int, col: int, closed: bool,
                 cs0: CellSets, ss0: Sets, cs: CellSets, ss: Sets)
    requires Swept(g0, g, cellSets, sets, rows, cols, row, col, closed, cs0, ss0) && col < cols - 1
    requires g' == Toggled(g, Slot(row, col, Right)) && WellFormed(g', rows, cols)
    requires cs0[col] != cs0[col + 1] && cs0[col] in ss0 && cs0[col + 1] in ss0
    requires ss.Keys == ss0.Keys - {cs0[col + 1]}
    requires ss[cs0[col]] == ss0[cs0[col]] + ss0[cs0[col + 1]]
    requires forall id | id in ss && id != cs0[col] :: ss[id] == ss0[id]
    requires cs.Keys == cs0.Keys
    requires forall c | c in cs :: cs[c] == if c in Cols(ss0[cs0[col + 1]]) then cs0[col] else cs0[c]
    ensures Swept(g0, g', cellSets, sets, rows, cols, row, col + 1, closed, cs, ss)
  {
    JoinGrid(g, g', rows, cols, row, col, closed);
    MergeKeeps(cs0, ss0, cols, cs0[col], cs0[col + 1], cs, ss);
    if row == rows - 1 {
      JoinRow(cs0, ss0, cols, col, cs);
    }
    if closed {
      GrowsTransitive(g0, g, g');
    }
  }

  /** At the end of `HorizontalPass` the last row has one set. */
  lemma SweptDone(g0: seq<seq<bool>>, g: seq<seq<bool>>, cellSets: CellSets, sets: Sets,
                  rows: nat, cols: nat, row: int, closed: bool, cs: CellSets, ss: Sets)
    requires cols >= 1 && Swept(g0, g, cellSets, sets, rows, cols, row, cols - 1, closed, cs, ss)
    ensures row == rows - 1 ==> |ss| == 1
  {
    if row == rows - 1 {
      OneSet(cs, ss, cols);
    }
  }

  /** Opening the wall right of (row, col) changes only the row's line and,
      when it was closed, grows the matrix by that one open wall. */
  lemma JoinGrid(g: seq<seq<bool>>, g': seq<seq<bool>>, rows: nat, cols: nat, row: int, col: int, closed: bool)
    requires WellFormed(g, rows, cols) && 0 <= row < rows && 0 <= col < cols - 1
    requires g' == Toggled(g, Slot(row, col, Right))
    requires closed ==> ClosedRight(g, row, col, cols)
    ensures forall k | 0 <= k < |g| && k != 2 * row + 1 :: g'[k] == g[k]
    ensures |g'| == |g|
    ensures closed ==> ClosedRight(g', row, col + 1, cols) && Grows(g, g')
    ensures closed ==> |OpenWalls(g')| == |OpenWalls(g)| + 1
  {
    if closed {
      CarveShape(g, rows, cols, row, col, Right);
      CarveOpenWalls(g, Slot(row, col, Right));
      forall c | col + 1 <= c < cols - 1 ensures !At(g', Slot(row, c, Right)) {
        assert Slot(row, c, Right) != Slot(row, col, Right);
      }
    }
  }

  /** On the last row, a join keeps every column up to the joined one in the
      left column's set. */
  lemma JoinRow(cs0: CellSets, ss0: Sets, cols: int, col: int, cs: CellSets)
    requires Consistent(cs0, ss0, cols) && 0 <= col < cols - 1
    requires forall c :: c in cs0 <==> 0 <= c < cols
    requires forall c | 0 <= c <= col :: cs0[c] == cs0[0]
    requires cs0[col] != cs0[col + 1]
    requires cs.Keys == cs0.Keys
    requires forall c | c in cs :: cs[c] == if c in Cols(ss0[cs0[col + 1]]) then cs0[col] else cs0[c]
    ensures forall c | 0 <= c <= col + 1 :: cs[c] == cs[0]
  {
    forall c | 0 <= c <= col ensures cs[c] == cs0[c] {
      if c in Cols(ss0[cs0[col + 1]]) {
        ColsNames(cs0, ss0, cols, cs0[col + 1], c);
      }
    }
  }

  /** A consistent pair whose columns all name one set has one set. */
  lemma OneSet(cs: CellSets, ss: Sets, cols: int)
    requires Consistent(cs, ss, cols) && cols >= 1
    requires forall c :: c in cs <==> 0 <= c < cols
    requires forall c | 0 <= c < cols :: cs[c] == cs[0]
    ensures |ss| == 1
  {
    forall id | id in ss ensures id == cs[0] {
      assert ss[id] != [];
      var c := ss[id][0].y as int;
      assert cs[c] == id;
    }
    assert ss.Keys == {cs[0]};
  }

  /** The state of the third inner loop of `ellers` once the sets with ids
      below `bound` have carried cells down: the new maps are consistent,
      every new column keeps its old set id and was opened by this pass,
      every row-`row + 1` cell this pass opened is held, and each opened
      wall is one new column. */
  ghost predicate Carried(g0: seq<seq<bool>>, g: seq<seq<bool>>, cellSets: CellSets, sets: Sets,
                          rows: nat, cols: nat, row: int, bound: int, ncs: CellSets, nss: Sets)
  {
    && CarriedMaps(cellSets, sets, cols, row, bound, ncs, nss)
    && CarriedOpen(g0, g, cols, row, ncs)
    && CarriedGrid(g0, g, rows, cols, row, ncs)
  }

  /** The map part of `Carried`. */
  ghost predicate CarriedMaps(cellSets: CellSets, sets: Sets, cols: int, row: int, bound: int, ncs: CellSets, nss: Sets)
  {
    && Consistent(ncs, nss, cols)
    && (forall c | c in ncs :: c in cellSets && ncs[c] == cellSets[c] && ncs[c] < bound)
    && (forall id | id in nss :: id in sets && id < bound)
    && (forall id, k | id in nss && 0 <= k < |nss[id]| :: nss[id][k].x as int == row + 1)
  }

  /** The held columns of the next row are exactly the cells this pass opened. */
  ghost predicate CarriedOpen(g0: seq<seq<bool>>, g: seq<seq<bool>>, cols: int, row: int, ncs: CellSets)
  {
    && (forall c | c in ncs :: Opened(g, row + 1, c))
    && (forall c | 0 <= c < cols && Opened(g, row + 1, c) && !Opened(g0, row + 1, c) :: c in ncs)
  }

  /** The matrix part of `Carried`: one new open wall per held column, all
      on the line between the two rows. */
  ghost predicate CarriedGrid(g0: seq<seq<bool>>, g: seq<seq<bool>>, rows: nat, cols: nat, row: int, ncs: CellSets)
  {
    && WellFormed(g, rows, cols) && 0 <= row < rows - 1 && rows < U32
    && OtherLinesKept(g0, g, 2 * row + 2) && Grows(g0, g)
    && |OpenWalls(g)| == |OpenWalls(g0)| + |ncs|
  }

  /** No cell of row `row + 1` has an open slot. */
  ghost predicate RowUnopened(g: seq<seq<bool>>, cols: int, row: int)
  {
    forall c | 0 <= c < cols :: !Opened(g, row, c)
  }

  /** Every live set with an id below `bound` has carried a cell down. */
  ghost predicate Covered(sets: Sets, nss: Sets, bound: int)
  {
    forall id | id in sets && id < bound :: id in nss
  }

  /** One draw of the `iters` loop: pick a cell of set `key` at random and,
      when the cell below it is still unopened, open the wall between them
      and put that cell into `key`'s set of the next row. */
  method DrawDown(maze: Maze, ghost g0: seq<seq<bool>>, ghost cellSets: CellSets, ghost sets: Sets,
                  row: int, key: int, value: seq<Vector2u>, ncs: CellSets, nss: Sets)
    returns (ncs': CellSets, nss': Sets)
    requires maze.Valid() && key in sets && value == sets[key] && Consistent(cellSets, sets, maze.cols)
    requires Carried(g0, maze.grid, cellSets, sets, maze.rows, maze.cols, row, key + 1, ncs, nss)
    modifies maze
    ensures maze.Valid() && maze.rows == old(maze.rows) && maze.cols == old(maze.cols)
    ensures Carried(g0, maze.grid, cellSets, sets, maze.rows, maze.cols, row, key + 1, ncs', nss')
    ensures nss.Keys <= nss'.Keys
    ensures (RowUnopened(g0, maze.cols, row + 1) &&
             Carried(g0, old(maze.grid), cellSets, sets, maze.rows, maze.cols, row, key, ncs, nss)) ==> key in nss'
    ensures OnlyInnerSlots(old(maze.grid), maze.grid, maze.rows, maze.cols)
  {
    var j := Irand(0, |value| - 1);
    var connection := value[j];
    var c := connection.y as int;
    ColsNamed(cellSets, sets, maze.cols, key, j);
    ghost var first := RowUnopened(g0, maze.cols, row + 1) &&
                       Carried(g0, maze.grid, cellSets, sets, maze.rows, maze.cols, row, key, ncs, nss);
    if first {
      FirstDraw(g0, maze.grid, cellSets, sets, maze.rows, maze.cols, row, key, c, ncs, nss);
    }
    NeighbourDoneCases(maze.grid, maze.rows, maze.cols, row, c, Down);
    if !maze.IsVisited(row, c, Down) {
      ghost var g := maze.grid;
      ToggleInner(g, maze.rows, maze.cols, row, c, Down);
      maze.ToggleWall(row, c, Down);
      ncs' := if c in ncs then ncs else ncs[c := key];
      var cell := Vector2u((row + 1) as u32, connection.y);
      if key in nss {
        nss' := nss[key := nss[key] + [cell]];
      } else {
        nss' := nss[key := [cell]];
      }
      DrawStep(g0, g, maze.grid, cellSets, sets, maze.rows, maze.cols, row, key, cell, ncs, nss, ncs', nss');
    } else {
      ncs', nss' := ncs, nss;
    }
  }

  /** A cell of a set names that set. */
  lemma ColsNamed(cellSets: CellSets, sets: Sets, cols: int, id: int, k: int)
    requires Consistent(cellSets, sets, cols) && id in sets && 0 <= k < |sets[id]|
    ensures var c := sets[id][k].y as int; c in cellSets && cellSets[c] == id && 0 <= c < cols
  {
  }

  /** Before set `key` has drawn, none of its columns is held in the next
      row, so on an unopened next row its first draw finds the cell below
      unopened. */
  lemma FirstDraw(g0: seq<seq<bool>>, g: seq<seq<bool>>, cellSets: CellSets, sets: Sets,
                  rows: nat, cols: nat, row: int, key: int, c: int, ncs: CellSets, nss: Sets)
    requires Carried(g0, g, cellSets, sets, rows, cols, row, key, ncs, nss)
    requires RowUnopened(g0, cols, row + 1)
    requires c in cellSets && cellSets[c] == key && 0 <= c < cols
    ensures !Opened(g, row + 1, c)
  {
  }

  /** Carrying column `cell.y` down into set `key` keeps the state. */
  lemma DrawStep(g0: seq<seq<bool>>, g: seq<seq<bool>>, g': seq<seq<bool>>, cellSets: CellSets, sets: Sets,
                 rows: nat, cols: nat, row: int, key: int, cell: Vector2u,
                 ncs: CellSets, nss: Sets, ncs': CellSets, nss': Sets)
    requires Carried(g0, g, cellSets, sets, rows, cols, row, key + 1, ncs, nss)
    requires key in sets && cell.x as int == row + 1
    requires var c := cell.y as int; c in cellSets && cellSets[c] == key && 0 <= c < cols
    requires !Opened(g, row + 1, cell.y as int)
    requires g' == Toggled(g, Slot(row, cell.y as int, Down))
    requires ncs' == if cell.y as int in ncs then ncs else ncs[cell.y as int := key]
    requires nss' == nss[key := if key in nss then nss[key] + [cell] else [cell]]
    ensures Carried(g0, g', cellSets, sets, rows, cols, row, key + 1, ncs', nss')
    ensures nss.Keys <= nss'.Keys && key in nss'
  {
    var c := cell.y as int;
    var prev: seq<Vector2u> := if key in nss then nss[key] else [];
    assert prev + [cell] == nss'[key];
    assert c !in ncs;
    DrawMaps(cellSets, sets, cols, row, key, cell, ncs, nss);
    DrawGrid(g0, g, rows, cols, row, c, ncs, key);
    DrawOpen(g0, g, rows, cols, row, c, ncs, key);
  }

  /** The map half of `DrawStep`. */
  lemma DrawMaps(cellSets: CellSets, sets: Sets, cols: int, row: int, key: int, cell: Vector2u, ncs: CellSets, nss: Sets)
    requires CarriedMaps(cellSets, sets, cols, row, key + 1, ncs, nss)
    requires key in sets && cell.x as int == row + 1
    requires var c := cell.y as int; c in cellSets && cellSets[c] == key && 0 <= c < cols && c !in ncs
    ensures var prev := if key in nss then nss[key] else [];
            CarriedMaps(cellSets, sets, cols, row, key + 1, ncs[cell.y as int := key], nss[key := prev + [cell]])
  {
    var prev: seq<Vector2u> := if key in nss then nss[key] else [];
    var nss': Sets := nss[key := prev + [cell]];
    AddKeeps(ncs, nss, cols, key, cell);
    forall id, k | id in nss' && 0 <= k < |nss'[id]| ensures nss'[id][k].x as int == row + 1 {
      if id == key && k < |prev| {
        assert nss'[id][k] == prev[k];
      }
    }
  }

  /** Opening the wall below (row, c) adds one open wall and changes only
      the line between the rows. */
  lemma DrawGrid(g0: seq<seq<bool>>, g: seq<seq<bool>>, rows: nat, cols: nat, row: int, c: int, ncs: CellSets, key: int)
    requires CarriedGrid(g0, g, rows, cols, row, ncs)
    requires 0 <= c < cols && c !in ncs && !Opened(g, row + 1, c)
    ensures CarriedGrid(g0, Toggled(g, Slot(row, c, Down)), rows, cols, row, ncs[c := key])
  {
    var g' := Toggled(g, Slot(row, c, Down));
    SlotShared(row, c, Down);
    assert !At(g, Slot(row, c, Down));
    CarveShape(g, rows, cols, row, c, Down);
    CarveOpenWalls(g, Slot(row, c, Down));
    GrowsTransitive(g0, g, g');
  }

  /** Opening the wall below (row, c) opens (row + 1, c) and no other cell
      of the next row. */
  lemma DrawOpen(g0: seq<seq<bool>>, g: seq<seq<bool>>, rows: nat, cols: nat, row: int, c: int, ncs: CellSets, key: int)
    requires CarriedOpen(g0, g, cols, row, ncs) && WellFormed(g, rows, cols) && 0 <= row < rows - 1
    requires 0 <= c < cols && !Opened(g, row + 1, c)
    ensures CarriedOpen(g0, Toggled(g, Slot(row, c, Down)), cols, row, ncs[c := key])
  {
    var g' := Toggled(g, Slot(row, c, Down));
    DrawKeepsHeld(g, g', rows, cols, row, c, ncs, ncs[c := key]);
    DrawOpensOne(g0, g, g', rows, cols, row, c, ncs, ncs[c := key]);
  }

  /** Every held column stays opened, the new one included. */
  lemma DrawKeepsHeld(g: seq<seq<bool>>, g': seq<seq<bool>>, rows: nat, cols: nat, row: int, c: int,
                       ncs: CellSets, ncs': CellSets)
    requires WellFormed(g, rows, cols) && 0 <= row < rows - 1 && 0 <= c < cols
    requires g' == Toggled(g, Slot(row, c, Down)) && !Opened(g, row + 1, c)
    requires forall c2 | c2 in ncs :: Opened(g, row + 1, c2)
    requires ncs'.Keys == ncs.Keys + {c}
    ensures forall c2 | c2 in ncs' :: Opened(g', row + 1, c2)
  {
    SlotShared(row, c, Down);
    assert At(g', Slot(row + 1, c, Up));
    CarveShape(g, rows, cols, row, c, Down);
    forall c2 | c2 in ncs ensures Opened(g', row + 1, c2) {
      GrowsKeepsOpened(g, g', row + 1, c2);
    }
  }

  /** The only next-row cell the draw opens is (row + 1, c). */
  lemma DrawOpensOne(g0: seq<seq<bool>>, g: seq<seq<bool>>, g': seq<seq<bool>>, rows: nat, cols: nat, row: int, c: int,
                      ncs: CellSets, ncs': CellSets)
    requires WellFormed(g, rows, cols) && 0 <= row < rows - 1 && 0 <= c < cols
    requires g' == Toggled(g, Slot(row, c, Down)) && !Opened(g, row + 1, c)
    requires forall c2 | 0 <= c2 < cols && Opened(g, row + 1, c2) && !Opened(g0, row + 1, c2) :: c2 in ncs
    requires ncs'.Keys == ncs.Keys + {c}
    ensures forall c2 | 0 <= c2 < cols && Opened(g', row + 1, c2) && !Opened(g0, row + 1, c2) :: c2 in ncs'
  {
    forall c2 | 0 <= c2 < cols && Opened(g', row + 1, c2) && !Opened(g0, row + 1, c2) && c2 != c
      ensures c2 in ncs
    {
      var r := row + 1;
      forall e | e != None ensures At(g', Slot(r, c2, e)) == At(g, Slot(r, c2, e)) {
        OnlySidesOf(row, c, Down, r, c2, e);
      }
    }
  }

  /** Adding an unheld column to set `id`, new or live, keeps the pair
      consistent. */
  lemma AddKeeps(cellSets: CellSets, sets: Sets, cols: int, id: int, cell: Vector2u)
    requires Consistent(cellSets, sets, cols)
    requires cell.y as int !in cellSets && cell.y as int < cols
    ensures var prev := if id in sets then sets[id] else [];
            Consistent(cellSets[cell.y as int := id], sets[id := prev + [cell]], cols)
  {
    var prev: seq<Vector2u> := if id in sets then sets[id] else [];
    var cs, ss := cellSets[cell.y as int := id], sets[id := prev + [cell]];
    ColsPush(prev, cell);
    forall c | c in cs ensures 0 <= c < cols && cs[c] in ss && c in Cols(ss[cs[c]]) {
      if c != cell.y as int && cellSets[c] == id {
        assert c in Cols(prev);
      }
    }
    forall i, k | i in ss && 0 <= k < |ss[i]| ensures ss[i][k].y as int in cs && cs[ss[i][k].y as int] == i {
      if i == id && k < |prev| {
        assert ss[i][k] == prev[k];
        assert prev[k].y as int in cellSets;
      }
    }
  }

  /** The `iters` loop for set `key`: between one and `|value|` draws, so
      on an unopened next row the set carries at least one cell down. */
  method CarryDown(maze: Maze, ghost g0: seq<seq<bool>>, ghost cellSets: CellSets, ghost sets: Sets,
                   row: int, key: int, value: seq<Vector2u>, ncs: CellSets, nss: Sets)
    returns (ncs': CellSets, nss': Sets)
    requires maze.Valid() && key in sets && value == sets[key] && Consistent(cellSets, sets, maze.cols)
    requires Carried(g0, maze.grid, cellSets, sets, maze.rows, maze.cols, row, key, ncs, nss)
    modifies maze
    ensures maze.Valid() && maze.rows == old(maze.rows) && maze.cols == old(maze.cols)
    ensures Carried(g0, maze.grid, cellSets, sets, maze.rows, maze.cols, row, key + 1, ncs', nss')
    ensures nss.Keys <= nss'.Keys
    ensures RowUnopened(g0, maze.cols, row + 1) ==> key in nss'
    ensures OnlyInnerSlots(old(maze.grid), maze.grid, maze.rows, maze.cols)
  {
    ghost var g := maze.grid;
    CarriedWiden(g0, g, cellSets, sets, maze.rows, maze.cols, row, key, ncs, nss);
    var iters := Irand(1, |value|);
    ncs', nss' := ncs, nss;
    for i := 0 to iters
      invariant maze.Valid() && maze.rows == old(maze.rows) && maze.cols == old(maze.cols)
      invariant Carried(g0, maze.grid, cellSets, sets, maze.rows, maze.cols, row, key + 1, ncs', nss')
      invariant nss.Keys <= nss'.Keys
      invariant i == 0 ==> ncs' == ncs && nss' == nss && maze.grid == g
      invariant i > 0 && RowUnopened(g0, maze.cols, row + 1) ==> key in nss'
      invariant WellFormed(g, maze.rows, maze.cols) && OnlyInnerSlots(g, maze.grid, maze.rows, maze.cols)
    {
      ghost var h := maze.grid;
      ncs', nss' := DrawDown(maze, g0, cellSets, sets, row, key, value, ncs', nss');
      OnlyInnerSlotsTrans(g, h, maze.grid, maze.rows, maze.cols);
    }
  }

  /** `Carried` for a bound holds for every larger one. */
  lemma CarriedWiden(g0: seq<seq<bool>>, g: seq<seq<bool>>, cellSets: CellSets, sets: Sets,
                     rows: nat, cols: nat, row: int, bound: int, ncs: CellSets, nss: Sets)
    requires Carried(g0, g, cellSets, sets, rows, cols, row, bound, ncs, nss)
    ensures Carried(g0, g, cellSets, sets, rows, cols, row, bound + 1, ncs, nss)
  {
  }

  /** The third inner loop of `ellers` (not run on the last row): every set,
      in increasing id order, carries some of its cells into the next row,
      which start new maps. Each carried cell opens one wall, on the line
      between the two rows; when the next row starts unopened, every set
      survives into it. */
  method VerticalPass(maze: Maze, cellSets: CellSets, sets: Sets, row: int, setCounter: int)
    returns (ncs: CellSets, nss: Sets)
    requires maze.Valid() && 0 <= row < maze.rows - 1 && setCounter >= 1
    requires Consistent(cellSets, sets, maze.cols) && IdsBelow(sets, setCounter)
    modifies maze
    ensures maze.Valid() && maze.rows == old(maze.rows) && maze.cols == old(maze.cols)
    ensures Consistent(ncs, nss, maze.cols) && nss.Keys <= sets.Keys
    ensures forall c | c in ncs :: 0 <= c < maze.cols
    ensures forall c | c in ncs :: c in cellSets && ncs[c] == cellSets[c]
    ensures forall c | c in ncs :: Opened(maze.grid, row + 1, c)
    ensures forall c | 0 <= c < maze.cols && Opened(maze.grid, row + 1, c) && !Opened(old(maze.grid), row + 1, c) :: c in ncs
    ensures OtherLinesKept(old(maze.grid), maze.grid, 2 * row + 2) && Grows(old(maze.grid), maze.grid)
    ensures |OpenWalls(maze.grid)| == |OpenWalls(old(maze.grid))| + |ncs|
    ensures RowUnopened(old(maze.grid), maze.cols, row + 1) ==> nss.Keys == sets.Keys
    ensures OnlyInnerSlots(old(maze.grid), maze.grid, maze.rows, maze.cols)
  {
    ghost var g0 := maze.grid;
    ncs, nss := map[], map[];
    for key := 1 to setCounter
      invariant maze.Valid() && maze.rows == old(maze.rows) && maze.cols == old(maze.cols)
      invariant Carried(g0, maze.grid, cellSets, sets, maze.rows, maze.cols, row, key, ncs, nss)
      invariant RowUnopened(g0, maze.cols, row + 1) ==> Covered(sets, nss, key)
      invariant WellFormed(g0, maze.rows, maze.cols) && OnlyInnerSlots(g0, maze.grid, maze.rows, maze.cols)
    {
      if key in sets {
        ghost var nss0, h := nss, maze.grid;
        ncs, nss := CarryDown(maze, g0, cellSets, sets, row, key, sets[key], ncs, nss);
        OnlyInnerSlotsTrans(g0, h, maze.grid, maze.rows, maze.cols);
        CoveredGrow(sets, nss0, nss, key, RowUnopened(g0, maze.cols, row + 1));
      } else {
        CarriedWiden(g0, maze.grid, cellSets, sets, maze.rows, maze.cols, row, key, ncs, nss);
      }
    }
    CarriedDone(g0, maze.grid, cellSets, sets, maze.rows, maze.cols, row, setCounter, ncs, nss);
  }

  /** Coverage extends past `key` once `key` has carried a cell down. */
  lemma CoveredGrow(sets: Sets, nss: Sets, nss': Sets, key: int, unopened: bool)
    requires unopened ==> Covered(sets, nss, key)
    requires nss.Keys <= nss'.Keys
    requires unopened ==> key in nss'
    ensures unopened ==> Covered(sets, nss', key + 1)
  {
  }

  /** The end of `VerticalPass`. */
  lemma CarriedDone(g0: seq<seq<bool>>, g: seq<seq<bool>>, cellSets: CellSets, sets: Sets,
                    rows: nat, cols: nat, row: int, bound: int, ncs: CellSets, nss: Sets)
    requires Carried(g0, g, cellSets, sets, rows, cols, row, bound, ncs, nss)
    requires IdsBelow(sets, bound)
    requires RowUnopened(g0, cols, row + 1) ==> Covered(sets, nss, bound)
    ensures Consistent(ncs, nss, cols) && nss.Keys <= sets.Keys
    ensures forall c | c in ncs :: 0 <= c < cols
    ensures forall c | c in ncs :: c in cellSets && ncs[c] == cellSets[c]
    ensures forall c | c in ncs :: Opened(g, row + 1, c)
    ensures forall c | 0 <= c < cols && Opened(g, row + 1, c) && !Opened(g0, row + 1, c) :: c in ncs
    ensures RowUnopened(g0, cols, row + 1) ==> nss.Keys == sets.Keys
  {
    assert CarriedMaps(cellSets, sets, cols, row, bound, ncs, nss);
    assert CarriedOpen(g0, g, cols, row, ncs);
    forall id | id in nss ensures id in sets {
    }
    if RowUnopened(g0, cols, row + 1) {
      forall id | id in sets ensures id in nss {
        assert id < bound;
      }
    }
  }

  /** On a line equal to the fresh matrix's line `2 * row + 1` every wall
      right of a cell is closed. */
  lemma FreshClosedRight(g: seq<seq<bool>>, rows: nat, cols: nat, row: int)
    requires |g| == 2 * rows + 1 && 0 <= row < rows
    requires g[2 * row + 1] == FreshGrid(rows, cols)[2 * row + 1]
    ensures ClosedRight(g, row, 0, cols)
  {
    forall c | 0 <= c < cols - 1 ensures !At(g, Slot(row, c, Right)) {
      assert (2 * c + 2) % 2 == 0;
    }
  }

  /** When every line from `2 * row + 2` on is fresh, no cell of row
      `row + 1` has an open slot. */
  lemma FreshRowUnopened(g: seq<seq<bool>>, rows: nat, cols: nat, row: int)
    requires |g| == 2 * rows + 1 && 0 <= row < rows - 1
    requires forall i | 2 * row + 2 <= i < |g| :: g[i] == FreshGrid(rows, cols)[i]
    ensures RowUnopened(g, cols, row + 1)
  {
    var r := row + 1;
    forall c | 0 <= c < cols ensures !Opened(g, r, c) {
      assert (2 * row + 2) % 2 == 0 && (2 * row + 4) % 2 == 0;
      assert (2 * c) % 2 == 0 && (2 * c + 2) % 2 == 0;
      assert g[2 * row + 2] == FreshGrid(rows, cols)[2 * row + 2];
      assert g[2 * row + 3] == FreshGrid(rows, cols)[2 * row + 3];
      assert g[2 * row + 4] == FreshGrid(rows, cols)[2 * row + 4];
    }
  }

  /** A map whose keys are the columns below `n` has `n` entries. */
  lemma ColumnsCard(m: CellSets, n: nat)
    requires forall c :: c in m <==> 0 <= c < n
    ensures |m| == n
  {
    KeysCard(m.Keys, n);
  }

  lemma {:induction false} KeysCard(ks: set<int>, n: nat)
    requires forall c :: c in ks <==> 0 <= c < n
    ensures |ks| == n
  {
    if n == 0 {
      forall c | c in ks ensures false {
      }
      assert ks == {};
    } else {
      assert n - 1 in ks;
      KeysCard(ks - {n - 1}, n - 1);
    }
  }

  /** The state of `ellers` at the top of row `row`: the carried maps are
      consistent and nothing from line `2 * row + 1` on has changed. On a
      fresh maze every earlier row has been closed off, and each open wall
      has merged two sets: open walls plus live sets make one per cell seen. */
  ghost predicate RowsDone(g0: seq<seq<bool>>, g: seq<seq<bool>>, rows: nat, cols: nat, row: int,
                           cellSets: CellSets, sets: Sets, setCounter: int)
  {
    && WellFormed(g, rows, cols) && 0 <= row <= rows && |g0| == |g|
    && Consistent(cellSets, sets, cols) && IdsBelow(sets, setCounter) && setCounter >= 1
    && (forall c | c in cellSets :: 0 <= c < cols)
    && (forall i | 2 * row + 1 <= i < |g| :: g[i] == g0[i])
    && (g0 == FreshGrid(rows, cols) ==> Grows(g0, g))
    && (g0 == FreshGrid(rows, cols) && row < rows ==> |OpenWalls(g)| + |sets| == row * cols + |cellSets|)
    && (g0 == FreshGrid(rows, cols) && row == rows > 0 ==> |OpenWalls(g)| + 1 == rows * cols)
  }

  /** One pass of the outer loop of `ellers`: seed and join the row, carry
      down unless it is the last, then let the new maps replace the old. */
  method EllersRow(maze: Maze, ghost g0: seq<seq<bool>>, cellSets: CellSets, sets: Sets, setCounter: int, row: int)
    returns (cs: CellSets, ss: Sets, counter: int)
    requires maze.Valid() && 0 <= row < maze.rows && maze.cols >= 1
    requires RowsDone(g0, maze.grid, maze.rows, maze.cols, row, cellSets, sets, setCounter)
    modifies maze
    ensures maze.Valid() && maze.rows == old(maze.rows) && maze.cols == old(maze.cols)
    ensures RowsDone(g0, maze.grid, maze.rows, maze.cols, row + 1, cs, ss, counter)
    ensures OnlyInnerSlots(old(maze.grid), maze.grid, maze.rows, maze.cols)
  {
    ghost var g := maze.grid;
    var joined, joinedSets;
    joined, joinedSets, counter := SeedAndJoin(maze, g0, cellSets, sets, setCounter, row);
    if row != maze.rows - 1 {
      ghost var g1 := maze.grid;
      if g0 == FreshGrid(maze.rows, maze.cols) {
        FreshRowUnopened(g1, maze.rows, maze.cols, row);
      }
      cs, ss := VerticalPass(maze, joined, joinedSets, row, counter);
      OnlyInnerSlotsTrans(g, g1, maze.grid, maze.rows, maze.cols);
      RowAfterCarry(g0, g, g1, maze.grid, maze.rows, maze.cols, row, joinedSets, cs, ss, counter);
    } else {
      cs, ss := map[], map[];
      RowAfterLast(g0, g, maze.grid, maze.rows, maze.cols, row, joinedSets, counter);
    }
  }

  /** The first two inner loops of `ellers` on one row. On a fresh maze
      every open wall so far has merged two sets, so open walls plus live
      sets count the cells of the rows up to this one. */
  method SeedAndJoin(maze: Maze, ghost g0: seq<seq<bool>>, cellSets: CellSets, sets: Sets, setCounter: int, row: int)
    returns (joined: CellSets, joinedSets: Sets, counter: int)
    requires maze.Valid() && 0 <= row < maze.rows && maze.cols >= 1
    requires RowsDone(g0, maze.grid, maze.rows, maze.cols, row, cellSets, sets, setCounter)
    modifies maze
    ensures maze.Valid() && maze.rows == old(maze.rows) && maze.cols == old(maze.cols)
    ensures Consistent(joined, joinedSets, maze.cols) && IdsBelow(joinedSets, counter) && counter >= 1
    ensures OtherLinesKept(old(maze.grid), maze.grid, 2 * row + 1)
    ensures g0 == FreshGrid(maze.rows, maze.cols) ==>
              Grows(old(maze.grid), maze.grid) && |OpenWalls(maze.grid)| + |joinedSets| == (row + 1) * maze.cols
    ensures row == maze.rows - 1 ==> |joinedSets| == 1
    ensures OnlyInnerSlots(old(maze.grid), maze.grid, maze.rows, maze.cols)
  {
    ghost var g := maze.grid;
    var seeded, seededSets;
    seeded, seededSets, counter := SeedRow(cellSets, sets, setCounter, row, maze.cols);
    ColumnsCard(seeded, maze.cols);
    if g0 == FreshGrid(maze.rows, maze.cols) {
      FreshClosedRight(g, maze.rows, maze.cols, row);
    }
    joined, joinedSets := HorizontalPass(maze, seeded, seededSets, row);
    if g0 == FreshGrid(maze.rows, maze.cols) {
      RowArithmetic(|OpenWalls(g)|, |OpenWalls(maze.grid)| + |joinedSets|, |sets|, |cellSets|, |seededSets|,
                    row, maze.cols);
    }
  }

  /** Bookkeeping of a row that carries down. */
  lemma RowAfterCarry(g0: seq<seq<bool>>, g: seq<seq<bool>>, g1: seq<seq<bool>>, g2: seq<seq<bool>>,
                      rows: nat, cols: nat, row: int, joinedSets: Sets, cs: CellSets, ss: Sets, counter: int)
    requires WellFormed(g, rows, cols) && |g0| == |g| && 0 <= row < rows - 1
    requires forall i | 2 * row + 1 <= i < |g| :: g[i] == g0[i]
    requires g0 == FreshGrid(rows, cols) ==> Grows(g0, g)
    requires counter >= 1 && IdsBelow(joinedSets, counter)
    requires OtherLinesKept(g, g1, 2 * row + 1) && OtherLinesKept(g1, g2, 2 * row + 2) && WellFormed(g2, rows, cols)
    requires g0 == FreshGrid(rows, cols) ==>
               Grows(g, g1) && |OpenWalls(g1)| + |joinedSets| == (row + 1) * cols
    requires Consistent(cs, ss, cols) && ss.Keys <= joinedSets.Keys && (forall c | c in cs :: 0 <= c < cols)
    requires Grows(g1, g2) && |OpenWalls(g2)| == |OpenWalls(g1)| + |cs|
    requires g0 == FreshGrid(rows, cols) ==> ss.Keys == joinedSets.Keys
    ensures RowsDone(g0, g2, rows, cols, row + 1, cs, ss, counter)
  {
    assert IdsBelow(ss, counter);
    forall i | 2 * (row + 1) + 1 <= i < |g2| ensures g2[i] == g0[i] {
      assert g2[i] == g1[i] == g[i];
    }
    if g0 == FreshGrid(rows, cols) {
      GrowsTransitive(g0, g, g1);
      GrowsTransitive(g0, g1, g2);
      assert |ss| == |joinedSets|;
    }
  }

  /** Bookkeeping of the last row: one set is left, so the open walls are
      one fewer than the cells. */
  lemma RowAfterLast(g0: seq<seq<bool>>, g: seq<seq<bool>>, g1: seq<seq<bool>>,
                     rows: nat, cols: nat, row: int, joinedSets: Sets, counter: int)
    requires WellFormed(g1, rows, cols) && |g0| == |g1| && row == rows - 1 && counter >= 1
    requires g0 == FreshGrid(rows, cols) ==> Grows(g0, g)
    requires g0 == FreshGrid(rows, cols) ==>
               Grows(g, g1) && |OpenWalls(g1)| + |joinedSets| == (row + 1) * cols
    requires |joinedSets| == 1
    ensures RowsDone(g0, g1, rows, cols, row + 1, map[], map[], counter)
  {
    if g0 == FreshGrid(rows, cols) {
      GrowsTransitive(g0, g, g1);
    }
  }

  /** The count of a row: seeding adds one set per new column, and joining
      trades a set for an open wall. */
  lemma RowArithmetic(walls: int, after: int, live: int, held: int, seeded: int, row: int, cols: int)
    requires walls + live == row * cols + held
    requires seeded - live == cols - held
    requires after == walls + seeded
    ensures after == (row + 1) * cols
  {
  }

  /** `ellers`: Eller's algorithm, row by row. It changes only slots between
      two cells. On a fresh maze with at least one row it opens exactly one
      wall fewer than it has cells, all between cells, and only ever opens
      walls. */
  method Ellers(maze: Maze)
    requires maze.Valid() && (maze.rows == 0 || maze.cols >= 1)
    modifies maze
    ensures maze.Valid() && maze.rows == old(maze.rows) && maze.cols == old(maze.cols)
    ensures old(maze.grid) == FreshGrid(maze.rows, maze.cols) ==> Grows(old(maze.grid), maze.grid)
    ensures old(maze.grid) == FreshGrid(maze.rows, maze.cols) && maze.rows >= 1 ==>
              |OpenWalls(maze.grid)| == maze.rows * maze.cols - 1
    ensures OnlyInnerSlots(old(maze.grid), maze.grid, maze.rows, maze.cols)
    ensures old(maze.grid) == FreshGrid(maze.rows, maze.cols) ==>
              forall p | p in OpenWalls(maze.grid) :: InnerSlot(maze.rows, maze.cols, p)
  {
    ghost var g0 := maze.grid;
    var cellSets: CellSets, sets: Sets, setCounter := map[], map[], 1;
    FreshWallsNone(g0, maze.rows, maze.cols);
    for row := 0 to maze.rows
      invariant maze.Valid() && maze.rows == old(maze.rows) && maze.cols == old(maze.cols)
      invariant RowsDone(g0, maze.grid, maze.rows, maze.cols, row, cellSets, sets, setCounter)
      invariant WellFormed(g0, maze.rows, maze.cols) && OnlyInnerSlots(g0, maze.grid, maze.rows, maze.cols)
    {
      ghost var g := maze.grid;
      cellSets, sets, setCounter := EllersRow(maze, g0, cellSets, sets, setCounter, row);
      OnlyInnerSlotsTrans(g0, g, maze.grid, maze.rows, maze.cols);
    }
    if g0 == FreshGrid(maze.rows, maze.cols) {
      FreshInnerWalls(maze.grid, maze.rows, maze.cols);
    }
  }

  /** A fresh maze has no open wall. */
  lemma FreshWallsNone(g: seq<seq<bool>>, rows: nat, cols: nat)
    ensures g == FreshGrid(rows, cols) ==> |OpenWalls(g)| == 0 && Grows(g, g)
  {
    if g == FreshGrid(rows, cols) {
      FreshGridFacts(rows, cols);
    }
  }
}

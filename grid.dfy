/** Geometry of the wall/cell matrix shared by the maze and the generators.

    A maze of `rows` x `cols` logical cells is stored as a boolean matrix of
    `2*rows+1` rows of `2*cols+1` entries. The entry at (2r+1, 2c+1) is the
    centre of cell (r, c); an entry with an even index on either axis is a
    wall slot or a corner post. This module holds the value-level vocabulary
    (cells, directions, slots, "opened", "settled") and the facts about
    carving that every generator relies on. */
module Grid {

  /** `unsigned int` on the source's platform. */
  type u32 = x: int | 0 <= x < 0x1_0000_0000

  /** `sf::Vector2u`; for cell positions `x` is the row and `y` the column. */
  datatype Vector2u = Vector2u(x: u32, y: u32)

  /** `Maze::Direction`; `None` is the "no edge" sentinel. */
  datatype Direction = Up | Down | Left | Right | None

  /** The matrix position of an entry: (matrix row, matrix column). */
  type Entry = (int, int)

  predicate InGrid(rows: int, cols: int, row: int, col: int)
  {
    0 <= row < rows && 0 <= col < cols
  }

  /** The cell one step from (row, col) in direction `d`, in plain integers. */
  function Step(row: int, col: int, d: Direction): (int, int)
  {
    match d
    case Up => (row - 1, col)
    case Down => (row + 1, col)
    case Left => (row, col - 1)
    case Right => (row, col + 1)
    case None => (row, col)
  }

  /** Moving from an in-grid cell in `d` leaves the maze. */
  predicate Crosses(rows: int, cols: int, row: int, col: int, d: Direction)
  {
    d != None && !InGrid(rows, cols, Step(row, col, d).0, Step(row, col, d).1)
  }

  function Center(row: int, col: int): Entry
  {
    (2 * row + 1, 2 * col + 1)
  }

  /** The wall slot on side `d` of cell (row, col). */
  function Slot(row: int, col: int, d: Direction): (p: Entry)
    requires d != None
  {
    match d
    case Up => (2 * row, 2 * col + 1)
    case Down => (2 * row + 2, 2 * col + 1)
    case Left => (2 * row + 1, 2 * col)
    case Right => (2 * row + 1, 2 * col + 2)
  }

  /** The slot on side `d` is the entry half-way between the cell's centre
      and its neighbour's centre, and is not itself a centre. */
  lemma SlotBetween(row: int, col: int, d: Direction)
    requires d != None
    ensures var p, n := Slot(row, col, d), Step(row, col, d);
            && 2 * p.0 == Center(row, col).0 + Center(n.0, n.1).0
            && 2 * p.1 == Center(row, col).1 + Center(n.0, n.1).1
            && (p.0 % 2 == 0) != (p.1 % 2 == 0)
  {
  }

  /** The opposite direction. */
  function Opposite(d: Direction): Direction
  {
    match d
    case Up => Down
    case Down => Up
    case Left => Right
    case Right => Left
    case None => None
  }

  /** Two neighbouring cells share the slot between them. */
  lemma SlotShared(row: int, col: int, d: Direction)
    requires d != None
    ensures var n := Step(row, col, d);
            Slot(n.0, n.1, Opposite(d)) == Slot(row, col, d)
  {
  }

  /** The entry at `p` exists and is true; false outside the matrix. */
  predicate At(g: seq<seq<bool>>, p: Entry)
  {
    0 <= p.0 < |g| && 0 <= p.1 < |g[p.0]| && g[p.0][p.1]
  }

  /** The matrix has the shape of a rows x cols maze and every cell centre is open. */
  ghost predicate WellFormed(g: seq<seq<bool>>, rows: int, cols: int)
  {
    && |g| == 2 * rows + 1
    && (forall i | 0 <= i < |g| :: |g[i]| == 2 * cols + 1)
    && (forall i, j | 0 <= i < |g| && 0 <= j < |g[i]| && i % 2 == 1 && j % 2 == 1 :: g[i][j])
  }

  /** The matrix of a freshly built maze: open exactly at the cell centres. */
  function FreshGrid(rows: nat, cols: nat): seq<seq<bool>>
  {
    seq(2 * rows + 1, i => seq(2 * cols + 1, j => i % 2 == 1 && j % 2 == 1))
  }

  /** Cell (row, col) has at least one of its four wall slots open. */
  predicate Opened(g: seq<seq<bool>>, row: int, col: int)
  {
    At(g, Slot(row, col, Up)) || At(g, Slot(row, col, Down)) ||
    At(g, Slot(row, col, Left)) || At(g, Slot(row, col, Right))
  }

  /** The neighbour of (row, col) in `d` is off the maze or opened. */
  predicate NeighbourDone(g: seq<seq<bool>>, rows: int, cols: int, row: int, col: int, d: Direction)
  {
    var n := Step(row, col, d);
    !InGrid(rows, cols, n.0, n.1) || Opened(g, n.0, n.1)
  }

  /** `NeighbourDone` spelt out per direction, as the maze queries test it. */
  lemma NeighbourDoneCases(g: seq<seq<bool>>, rows: int, cols: int, row: int, col: int, d: Direction)
    requires InGrid(rows, cols, row, col) && d != None
    ensures NeighbourDone(g, rows, cols, row, col, d) <==>
      match d
      case Up => row == 0 || Opened(g, row - 1, col)
      case Down => row == rows - 1 || Opened(g, row + 1, col)
      case Left => col == 0 || Opened(g, row, col - 1)
      case Right => col == cols - 1 || Opened(g, row, col + 1)
      case None => false
  {
  }

  /** No in-grid neighbour of (row, col) is left unopened. */
  predicate Settled(g: seq<seq<bool>>, rows: int, cols: int, row: int, col: int)
  {
    NeighbourDone(g, rows, cols, row, col, Up) && NeighbourDone(g, rows, cols, row, col, Down) &&
    NeighbourDone(g, rows, cols, row, col, Left) && NeighbourDone(g, rows, cols, row, col, Right)
  }

  /** `g2` has the shape of `g1` and keeps every entry `g1` has open. */
  ghost predicate Grows(g1: seq<seq<bool>>, g2: seq<seq<bool>>)
  {
    && |g1| == |g2|
    && (forall i | 0 <= i < |g1| :: |g1[i]| == |g2[i]|)
    && (forall i, j | 0 <= i < |g1| && 0 <= j < |g1[i]| && g1[i][j] :: g2[i][j])
  }

  function AllCells(rows: nat, cols: nat): set<(int, int)>
  {
    set r, c | 0 <= r < rows && 0 <= c < cols :: (r, c)
  }

  ghost function VisitedCells(g: seq<seq<bool>>, rows: nat, cols: nat): set<(int, int)>
  {
    set r, c | 0 <= r < rows && 0 <= c < cols && Opened(g, r, c) :: (r, c)
  }

  ghost function UnvisitedCells(g: seq<seq<bool>>, rows: nat, cols: nat): set<(int, int)>
  {
    set r, c | 0 <= r < rows && 0 <= c < cols && !Opened(g, r, c) :: (r, c)
  }

  /** The open entries that are not cell centres. */
  ghost function OpenWalls(g: seq<seq<bool>>): set<Entry>
  {
    set i, j | 0 <= i < |g| && 0 <= j < |g[i]| && g[i][j] && !(i % 2 == 1 && j % 2 == 1) :: (i, j)
  }

  /** `g` with the entry at `p` flipped. */
  function Toggled(g: seq<seq<bool>>, p: Entry): seq<seq<bool>>
    requires 0 <= p.0 < |g| && 0 <= p.1 < |g[p.0]|
  {
    g[p.0 := g[p.0][p.1 := !g[p.0][p.1]]]
  }

  /** Flipping an entry twice restores the matrix. */
  lemma ToggledTwice(g: seq<seq<bool>>, p: Entry)
    requires 0 <= p.0 < |g| && 0 <= p.1 < |g[p.0]|
    ensures Toggled(Toggled(g, p), p) == g
  {
    var h := Toggled(Toggled(g, p), p);
    assert h[p.0] == g[p.0];
  }

  /** A wall slot between two cells of the maze: off the frame, with exactly
      one odd index, so neither a cell centre nor a corner post. */
  predicate InnerSlot(rows: int, cols: int, p: Entry)
  {
    0 < p.0 < 2 * rows && 0 < p.1 < 2 * cols && p.0 % 2 != p.1 % 2
  }

  /** `g` differs from `g0` only at inner slots: the frame, the corner posts
      and the centres are as they were. */
  ghost predicate OnlyInnerSlots(g0: seq<seq<bool>>, g: seq<seq<bool>>, rows: int, cols: int)
  {
    forall i, j | 0 <= i < |g0| && 0 <= j < |g0[i]| && i < |g| && j < |g[i]| && g[i][j] != g0[i][j] ::
      InnerSlot(rows, cols, (i, j))
  }

  lemma OnlyInnerSlotsNone(g: seq<seq<bool>>, rows: int, cols: int)
    ensures OnlyInnerSlots(g, g, rows, cols)
  {
  }

  /** Two changes at inner slots make one. */
  lemma OnlyInnerSlotsTrans(g0: seq<seq<bool>>, g1: seq<seq<bool>>, g2: seq<seq<bool>>, rows: int, cols: int)
    requires WellFormed(g0, rows, cols) && WellFormed(g1, rows, cols) && WellFormed(g2, rows, cols)
    requires OnlyInnerSlots(g0, g1, rows, cols) && OnlyInnerSlots(g1, g2, rows, cols)
    ensures OnlyInnerSlots(g0, g2, rows, cols)
  {
    forall i, j | 0 <= i < |g0| && 0 <= j < |g0[i]| && i < |g2| && j < |g2[i]| && g2[i][j] != g0[i][j]
      ensures InnerSlot(rows, cols, (i, j))
    {
      if g1[i][j] != g0[i][j] {
      } else {
        assert g2[i][j] != g1[i][j];
      }
    }
  }

  /** The slot between two in-grid neighbours is an inner slot. */
  lemma SlotInner(rows: int, cols: int, row: int, col: int, d: Direction)
    requires InGrid(rows, cols, row, col) && d != None
    requires InGrid(rows, cols, Step(row, col, d).0, Step(row, col, d).1)
    ensures InnerSlot(rows, cols, Slot(row, col, d))
  {
    SlotBetween(row, col, d);
  }

  /** Toggling the slot between two in-grid neighbours changes only that
      inner slot. */
  lemma ToggleInner(g: seq<seq<bool>>, rows: nat, cols: nat, row: int, col: int, d: Direction)
    requires WellFormed(g, rows, cols)
    requires InGrid(rows, cols, row, col) && d != None
    requires InGrid(rows, cols, Step(row, col, d).0, Step(row, col, d).1)
    ensures 0 <= Slot(row, col, d).0 < |g| && 0 <= Slot(row, col, d).1 < |g[Slot(row, col, d).0]|
    ensures OnlyInnerSlots(g, Toggled(g, Slot(row, col, d)), rows, cols)
  {
    var s := Slot(row, col, d);
    SlotInner(rows, cols, row, col, d);
    var g' := Toggled(g, s);
    forall i, j | 0 <= i < |g| && 0 <= j < |g[i]| && i < |g'| && j < |g'[i]| && g'[i][j] != g[i][j]
      ensures InnerSlot(rows, cols, (i, j))
    {
      assert (i, j) == s;
    }
  }

  /** Starting from a fresh matrix, a matrix changed only at inner slots has
      every open wall between two cells: the frame and the corner posts are
      still closed. */
  lemma FreshInnerWalls(g: seq<seq<bool>>, rows: nat, cols: nat)
    requires WellFormed(g, rows, cols) && OnlyInnerSlots(FreshGrid(rows, cols), g, rows, cols)
    ensures forall p | p in OpenWalls(g) :: InnerSlot(rows, cols, p)
  {
    var g0 := FreshGrid(rows, cols);
    forall p | p in OpenWalls(g) ensures InnerSlot(rows, cols, p) {
      var (i, j) := p;
      assert g[i][j] && !g0[i][j];
    }
  }

  /** A fresh matrix is well formed, has no open wall and no opened cell. */
  lemma FreshGridFacts(rows: nat, cols: nat)
    ensures WellFormed(FreshGrid(rows, cols), rows, cols)
    ensures OpenWalls(FreshGrid(rows, cols)) == {}
    ensures VisitedCells(FreshGrid(rows, cols), rows, cols) == {}
    ensures forall r, c :: !Opened(FreshGrid(rows, cols), r, c)
  {
    var g := FreshGrid(rows, cols);
    forall r, c ensures !Opened(g, r, c) {
      forall d | d != None ensures !At(g, Slot(r, c, d)) { }
    }
    assert OpenWalls(g) == {} by {
      forall p | p in OpenWalls(g) ensures false { }
    }
  }

  /** What opening the closed slot between two in-grid neighbours does to
      the vocabulary above. */
  lemma CarveEffect(g: seq<seq<bool>>, rows: nat, cols: nat, row: int, col: int, d: Direction)
    requires WellFormed(g, rows, cols)
    requires InGrid(rows, cols, row, col) && d != None
    requires InGrid(rows, cols, Step(row, col, d).0, Step(row, col, d).1)
    requires !At(g, Slot(row, col, d))
    ensures var s := Slot(row, col, d);
            var g' := Toggled(g, s);
            var n := Step(row, col, d);
            && WellFormed(g', rows, cols)
            && Grows(g, g')
            && At(g', s)
            && s !in OpenWalls(g) && OpenWalls(g') == OpenWalls(g) + {s}
            && Opened(g', row, col) && Opened(g', n.0, n.1)
            && (forall r, c :: (r, c) != (row, col) && (r, c) != n ==> Opened(g', r, c) == Opened(g, r, c))
            && VisitedCells(g', rows, cols) == VisitedCells(g, rows, cols) + {(row, col), n}
  {
    var s := Slot(row, col, d);
    CarveShape(g, rows, cols, row, col, d);
    CarveOpenWalls(g, s);
    CarveOpened(g, rows, cols, row, col, d);
    CarveVisited(g, rows, cols, row, col, d);
  }

  lemma CarveShape(g: seq<seq<bool>>, rows: nat, cols: nat, row: int, col: int, d: Direction)
    requires WellFormed(g, rows, cols)
    requires InGrid(rows, cols, row, col) && d != None
    requires InGrid(rows, cols, Step(row, col, d).0, Step(row, col, d).1)
    requires !At(g, Slot(row, col, d))
    ensures var g' := Toggled(g, Slot(row, col, d));
            WellFormed(g', rows, cols) && Grows(g, g') && At(g', Slot(row, col, d))
  {
  }

  lemma CarveOpenWalls(g: seq<seq<bool>>, s: Entry)
    requires 0 <= s.0 < |g| && 0 <= s.1 < |g[s.0]| && !g[s.0][s.1]
    requires (s.0 % 2 == 0) != (s.1 % 2 == 0)
    ensures s !in OpenWalls(g) && OpenWalls(Toggled(g, s)) == OpenWalls(g) + {s}
  {
    var g' := Toggled(g, s);
    forall p | p in OpenWalls(g') ensures p in OpenWalls(g) + {s} { }
    forall p | p in OpenWalls(g) + {s} ensures p in OpenWalls(g') { }
  }

  lemma CarveOpened(g: seq<seq<bool>>, rows: nat, cols: nat, row: int, col: int, d: Direction)
    requires WellFormed(g, rows, cols)
    requires InGrid(rows, cols, row, col) && d != None
    requires InGrid(rows, cols, Step(row, col, d).0, Step(row, col, d).1)
    requires !At(g, Slot(row, col, d))
    ensures var g' := Toggled(g, Slot(row, col, d));
            var n := Step(row, col, d);
            && Opened(g', row, col) && Opened(g', n.0, n.1)
            && (forall r, c :: (r, c) != (row, col) && (r, c) != n ==> Opened(g', r, c) == Opened(g, r, c))
  {
    var s := Slot(row, col, d);
    var g' := Toggled(g, s);
    var n := Step(row, col, d);
    SlotShared(row, col, d);
    assert At(g', Slot(n.0, n.1, Opposite(d)));
    forall r, c | (r, c) != (row, col) && (r, c) != n
      ensures Opened(g', r, c) == Opened(g, r, c)
    {
      forall e | e != None ensures At(g', Slot(r, c, e)) == At(g, Slot(r, c, e)) {
        OnlySidesOf(row, col, d, r, c, e);
      }
    }
  }

  lemma CarveVisited(g: seq<seq<bool>>, rows: nat, cols: nat, row: int, col: int, d: Direction)
    requires WellFormed(g, rows, cols)
    requires InGrid(rows, cols, row, col) && d != None
    requires InGrid(rows, cols, Step(row, col, d).0, Step(row, col, d).1)
    requires !At(g, Slot(row, col, d))
    ensures var g' := Toggled(g, Slot(row, col, d));
            VisitedCells(g', rows, cols) == VisitedCells(g, rows, cols) + {(row, col), Step(row, col, d)}
  {
    var g' := Toggled(g, Slot(row, col, d));
    CarveShape(g, rows, cols, row, col, d);
    CarveOpened(g, rows, cols, row, col, d);
    VisitedGain(g, g', rows, cols, (row, col), Step(row, col, d));
  }

  /** When only cells `a` and `b` can change status and both end opened,
      the visited set gains exactly those two. */
  lemma VisitedGain(g: seq<seq<bool>>, g': seq<seq<bool>>, rows: nat, cols: nat, a: (int, int), b: (int, int))
    requires Grows(g, g')
    requires InGrid(rows, cols, a.0, a.1) && InGrid(rows, cols, b.0, b.1)
    requires Opened(g', a.0, a.1) && Opened(g', b.0, b.1)
    requires forall r, c :: (r, c) != a && (r, c) != b ==> Opened(g', r, c) == Opened(g, r, c)
    ensures VisitedCells(g', rows, cols) == VisitedCells(g, rows, cols) + {a, b}
  {
    VisitedGainAtMost(g, g', rows, cols, a, b);
    VisitedGainAtLeast(g, g', rows, cols, a, b);
  }

  lemma VisitedGainAtMost(g: seq<seq<bool>>, g': seq<seq<bool>>, rows: nat, cols: nat, a: (int, int), b: (int, int))
    requires forall r, c :: (r, c) != a && (r, c) != b ==> Opened(g', r, c) == Opened(g, r, c)
    ensures VisitedCells(g', rows, cols) <= VisitedCells(g, rows, cols) + {a, b}
  {
    var v, v' := VisitedCells(g, rows, cols), VisitedCells(g', rows, cols);
    forall p | p in v' ensures p in v + {a, b} {
      var (r, c) := p;
      assert InGrid(rows, cols, r, c) && Opened(g', r, c);
      if (r, c) != a && (r, c) != b {
        assert (r, c) in v;
      }
    }
  }

  lemma VisitedGainAtLeast(g: seq<seq<bool>>, g': seq<seq<bool>>, rows: nat, cols: nat, a: (int, int), b: (int, int))
    requires Grows(g, g')
    requires InGrid(rows, cols, a.0, a.1) && InGrid(rows, cols, b.0, b.1)
    requires Opened(g', a.0, a.1) && Opened(g', b.0, b.1)
    ensures VisitedCells(g, rows, cols) + {a, b} <= VisitedCells(g', rows, cols)
  {
    var v, v' := VisitedCells(g, rows, cols), VisitedCells(g', rows, cols);
    forall p | p in v ensures p in v' {
      var (r, c) := p;
      assert InGrid(rows, cols, r, c) && Opened(g, r, c);
      GrowsKeepsOpened(g, g', r, c);
      assert (r, c) in v';
    }
    assert a in v' by { assert Opened(g', a.0, a.1); }
    assert b in v' by { assert Opened(g', b.0, b.1); }
  }

  /** A slot is a side of exactly the two cells it separates. */
  lemma OnlySidesOf(row: int, col: int, d: Direction, r: int, c: int, e: Direction)
    requires d != None && e != None
    requires (r, c) != (row, col) && (r, c) != Step(row, col, d)
    ensures Slot(r, c, e) != Slot(row, col, d)
  {
  }

  lemma GrowsKeepsOpened(g1: seq<seq<bool>>, g2: seq<seq<bool>>, row: int, col: int)
    requires Grows(g1, g2)
    requires Opened(g1, row, col)
    ensures Opened(g2, row, col)
  {
  }

  /** Opening entries never un-visits a cell or un-settles one. */
  lemma GrowsMonotone(g1: seq<seq<bool>>, g2: seq<seq<bool>>, rows: nat, cols: nat)
    requires Grows(g1, g2)
    ensures forall r, c :: Opened(g1, r, c) ==> Opened(g2, r, c)
    ensures forall r, c :: Settled(g1, rows, cols, r, c) ==> Settled(g2, rows, cols, r, c)
    ensures VisitedCells(g1, rows, cols) <= VisitedCells(g2, rows, cols)
    ensures UnvisitedCells(g2, rows, cols) <= UnvisitedCells(g1, rows, cols)
    ensures OpenWalls(g1) <= OpenWalls(g2)
  {
    forall r, c | Opened(g1, r, c) ensures Opened(g2, r, c) {
      GrowsKeepsOpened(g1, g2, r, c);
    }
  }

  lemma GrowsTransitive(g1: seq<seq<bool>>, g2: seq<seq<bool>>, g3: seq<seq<bool>>)
    requires Grows(g1, g2) && Grows(g2, g3)
    ensures Grows(g1, g3)
  {
  }

  /** The visited and unvisited cells partition the grid. */
  lemma VisitedSplit(g: seq<seq<bool>>, rows: nat, cols: nat)
    ensures VisitedCells(g, rows, cols) + UnvisitedCells(g, rows, cols) == AllCells(rows, cols)
    ensures VisitedCells(g, rows, cols) !! UnvisitedCells(g, rows, cols)
  {
  }

  /** A rows x cols maze has rows*cols cells. */
  lemma {:induction false} AllCellsCount(rows: nat, cols: nat)
    ensures |AllCells(rows, cols)| == rows * cols
  {
    if rows > 0 {
      AllCellsSplit(rows - 1, cols);
      AllCellsCount(rows - 1, cols);
      RowCount(rows - 1, cols);
      assert (rows - 1) * cols + cols == rows * cols;
    }
  }

  lemma AllCellsSplit(rows: nat, cols: nat)
    ensures AllCells(rows + 1, cols) == AllCells(rows, cols) + RowCells(rows, cols)
    ensures AllCells(rows, cols) !! RowCells(rows, cols)
  {
    var prev, last := AllCells(rows, cols), RowCells(rows, cols);
    forall p | p in AllCells(rows + 1, cols) ensures p in prev + last {
      var (r, c) := p;
      if r < rows { assert (r, c) in prev; } else { assert (r, c) in last; }
    }
  }

  function RowCells(row: int, cols: nat): set<(int, int)>
  {
    set c | 0 <= c < cols :: (row, c)
  }

  lemma {:induction false} RowCount(row: int, cols: nat)
    ensures |RowCells(row, cols)| == cols
  {
    if cols > 0 {
      assert RowCells(row, cols) == RowCells(row, cols - 1) + {(row, cols - 1)};
      RowCount(row, cols - 1);
    }
  }

  /** If the opened cells are non-empty and all settled, every cell is opened:
      the grid graph is connected. */
  lemma SettledCoversGrid(g: seq<seq<bool>>, rows: nat, cols: nat, row: int, col: int)
    requires InGrid(rows, cols, row, col) && Opened(g, row, col)
    requires forall r, c :: InGrid(rows, cols, r, c) && Opened(g, r, c) ==> Settled(g, rows, cols, r, c)
    ensures forall r, c :: InGrid(rows, cols, r, c) ==> Opened(g, r, c)
    ensures VisitedCells(g, rows, cols) == AllCells(rows, cols)
  {
    ReachOrigin(g, rows, cols, row, col);
    forall r, c | InGrid(rows, cols, r, c) ensures Opened(g, r, c) {
      ReachFromOrigin(g, rows, cols, r, c);
    }
  }

  lemma {:induction false} ReachOrigin(g: seq<seq<bool>>, rows: nat, cols: nat, row: int, col: int)
    requires InGrid(rows, cols, row, col) && Opened(g, row, col)
    requires forall r, c {:trigger Settled(g, rows, cols, r, c)} :: InGrid(rows, cols, r, c) && Opened(g, r, c) ==> Settled(g, rows, cols, r, c)
    ensures Opened(g, 0, 0)
    decreases row + col
  {
    if row > 0 {
      assert Settled(g, rows, cols, row, col);
      assert NeighbourDone(g, rows, cols, row, col, Up);
      ReachOrigin(g, rows, cols, row - 1, col);
    } else if col > 0 {
      assert Settled(g, rows, cols, row, col);
      assert NeighbourDone(g, rows, cols, row, col, Left);
      ReachOrigin(g, rows, cols, row, col - 1);
    }
  }

  lemma {:induction false} ReachFromOrigin(g: seq<seq<bool>>, rows: nat, cols: nat, row: int, col: int)
    requires InGrid(rows, cols, row, col) && Opened(g, 0, 0)
    requires forall r, c {:trigger Settled(g, rows, cols, r, c)} :: InGrid(rows, cols, r, c) && Opened(g, r, c) ==> Settled(g, rows, cols, r, c)
    ensures Opened(g, row, col)
    decreases row + col
  {
    if row > 0 {
      ReachFromOrigin(g, rows, cols, row - 1, col);
      assert Settled(g, rows, cols, row - 1, col);
      assert NeighbourDone(g, rows, cols, row - 1, col, Down);
    } else if col > 0 {
      ReachFromOrigin(g, rows, cols, row, col - 1);
      assert Settled(g, rows, cols, row, col - 1);
      assert NeighbourDone(g, rows, cols, row, col - 1, Right);
    }
  }

  /** A maze with at least two cells: every cell has an in-grid neighbour. */
  lemma HasNeighbour(rows: nat, cols: nat, row: int, col: int) returns (d: Direction)
    requires InGrid(rows, cols, row, col) && rows * cols >= 2
    ensures d != None && InGrid(rows, cols, Step(row, col, d).0, Step(row, col, d).1)
  {
    if row > 0 { d := Up; }
    else if row < rows - 1 { d := Down; }
    else if col > 0 { d := Left; }
    else {
      assert rows == 1;
      d := Right;
    }
  }

  /** Every cell opened between `g0` and `g`, except `skip`, is settled in `g`. */
  ghost predicate NewlySettled(g0: seq<seq<bool>>, g: seq<seq<bool>>, rows: nat, cols: nat, skip: (int, int))
  {
    forall r, c | InGrid(rows, cols, r, c) && Opened(g, r, c) && !Opened(g0, r, c) && (r, c) != skip ::
      Settled(g, rows, cols, r, c)
  }

  /** The carve bookkeeping: the cells visited since `g0` are the walls
      opened since `g0`, plus `start` when it was itself opened meanwhile. */
  ghost predicate Counted(g0: seq<seq<bool>>, g: seq<seq<bool>>, rows: nat, cols: nat, start: (int, int))
  {
    |VisitedCells(g, rows, cols)| - |VisitedCells(g0, rows, cols)| ==
    |OpenWalls(g)| - |OpenWalls(g0)| + (if !Opened(g0, start.0, start.1) && Opened(g, start.0, start.1) then 1 else 0)
  }

  /** The outcome a carving generator reaches from a fresh matrix: when every
      opened cell is settled, the start cell is settled, and each carve
      accounts for one newly visited cell besides the start, the open walls
      number one less than the cells, and with two or more cells every cell
      is opened. */
  lemma TreeFromFresh(g: seq<seq<bool>>, rows: nat, cols: nat, start: (int, int))
    requires WellFormed(g, rows, cols)
    requires InGrid(rows, cols, start.0, start.1)
    requires forall r, c | InGrid(rows, cols, r, c) && Opened(g, r, c) :: Settled(g, rows, cols, r, c)
    requires Settled(g, rows, cols, start.0, start.1)
    requires |VisitedCells(g, rows, cols)| == |OpenWalls(g)| + (if Opened(g, start.0, start.1) then 1 else 0)
    ensures |OpenWalls(g)| == rows * cols - 1
    ensures rows * cols >= 2 ==> forall r, c | InGrid(rows, cols, r, c) :: Opened(g, r, c)
  {
    if rows * cols >= 2 {
      var d := HasNeighbour(rows, cols, start.0, start.1);
      var n := Step(start.0, start.1, d);
      assert NeighbourDone(g, rows, cols, start.0, start.1, d);
      SettledCoversGrid(g, rows, cols, n.0, n.1);
      AllCellsCount(rows, cols);
    } else {
      OneByOne(rows, cols);
      SingleCell(g, rows, cols);
    }
  }

  lemma OneByOne(rows: nat, cols: nat)
    requires 1 <= rows && 1 <= cols && rows * cols < 2
    ensures rows == 1 && cols == 1
  {
    var a: nat, b: nat := rows - 1, cols - 1;
    assert rows * cols == a * b + a + b + 1;
  }

  lemma SingleCell(g: seq<seq<bool>>, rows: nat, cols: nat)
    requires rows == 1 && cols == 1
    ensures VisitedCells(g, rows, cols) == if Opened(g, 0, 0) then {(0, 0)} else {}
  {
    var v := VisitedCells(g, rows, cols);
    forall p | p in v ensures p == (0, 0) {
      var (r, c) := p;
      assert InGrid(rows, cols, r, c);
    }
    if Opened(g, 0, 0) {
      assert (0, 0) in v;
    }
  }

  /** Carving the slot towards an untouched in-grid neighbour, counted:
      one more open wall, and one or two more visited cells. */
  lemma CarveCount(g: seq<seq<bool>>, rows: nat, cols: nat, row: int, col: int, d: Direction)
    requires WellFormed(g, rows, cols)
    requires InGrid(rows, cols, row, col) && d != None
    requires InGrid(rows, cols, Step(row, col, d).0, Step(row, col, d).1)
    requires !Opened(g, Step(row, col, d).0, Step(row, col, d).1)
    ensures !At(g, Slot(row, col, d))
    ensures var g' := Toggled(g, Slot(row, col, d));
            && |OpenWalls(g')| == |OpenWalls(g)| + 1
            && |VisitedCells(g', rows, cols)| == |VisitedCells(g, rows, cols)| + (if Opened(g, row, col) then 1 else 2)
  {
    UntouchedSlot(g, row, col, d);
    CarveCountWalls(g, rows, cols, row, col, d);
    CarveCountVisited(g, rows, cols, row, col, d);
  }

  /** The slot towards an untouched neighbour is closed. */
  lemma UntouchedSlot(g: seq<seq<bool>>, row: int, col: int, d: Direction)
    requires d != None
    requires !Opened(g, Step(row, col, d).0, Step(row, col, d).1)
    ensures !At(g, Slot(row, col, d))
  {
    var n := Step(row, col, d);
    SlotShared(row, col, d);
    assert !At(g, Slot(n.0, n.1, Opposite(d)));
  }

  lemma CarveCountWalls(g: seq<seq<bool>>, rows: nat, cols: nat, row: int, col: int, d: Direction)
    requires WellFormed(g, rows, cols)
    requires InGrid(rows, cols, row, col) && d != None
    requires !At(g, Slot(row, col, d))
    ensures |OpenWalls(Toggled(g, Slot(row, col, d)))| == |OpenWalls(g)| + 1
  {
    var s := Slot(row, col, d);
    assert (s.0 % 2 == 0) != (s.1 % 2 == 0);
    CarveOpenWalls(g, s);
  }

  lemma CarveCountVisited(g: seq<seq<bool>>, rows: nat, cols: nat, row: int, col: int, d: Direction)
    requires WellFormed(g, rows, cols)
    requires InGrid(rows, cols, row, col) && d != None
    requires InGrid(rows, cols, Step(row, col, d).0, Step(row, col, d).1)
    requires !Opened(g, Step(row, col, d).0, Step(row, col, d).1)
    requires !At(g, Slot(row, col, d))
    ensures |VisitedCells(Toggled(g, Slot(row, col, d)), rows, cols)| ==
            |VisitedCells(g, rows, cols)| + (if Opened(g, row, col) then 1 else 2)
  {
    var n := Step(row, col, d);
    CarveVisited(g, rows, cols, row, col, d);
    var v := VisitedCells(g, rows, cols);
    assert n !in v;
    assert Opened(g, row, col) <==> (row, col) in v;
    CardAddTwo(v, (row, col), n);
  }

  lemma CardAddTwo<T>(v: set<T>, a: T, b: T)
    requires b !in v && a != b
    ensures |v + {a, b}| == |v| + (if a in v then 1 else 2)
  {
    if a in v {
      assert v + {a, b} == v + {b};
    }
  }
}

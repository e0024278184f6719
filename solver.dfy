/** The generators' shared helpers. The solver's random engines are an
    oracle: every draw is some value in the requested range, and every
    property below holds whatever the draws are. */
module Solver {
  import opened Grid
  import opened Mazes

  const U32: int := 0x1_0000_0000

  /** The direction list every generator starts from, in source order. */
  const Dirs: seq<Direction> := [Up, Left, Down, Right]

  /** An `int` converted to `unsigned int`: reduced modulo 2^32. */
  function ToU32(x: int): (r: u32)
    ensures (r - x) % U32 == 0
    ensures 0 <= x < U32 ==> r == x
  {
    x % U32
  }

  /** `changePosition`: the neighbour's coordinates, computed on
      `unsigned int` components, so stepping off row or column 0 wraps. */
  function ChangePosition(row: int, col: int, dir: Direction): (pos: Vector2u)
    ensures pos == Vector2u(ToU32(Step(row, col, dir).0), ToU32(Step(row, col, dir).1))
    ensures 0 <= Step(row, col, dir).0 < U32 && 0 <= Step(row, col, dir).1 < U32 ==>
              pos.x == Step(row, col, dir).0 && pos.y == Step(row, col, dir).1
  {
    var n := Step(row, col, dir);
    Vector2u(ToU32(n.0), ToU32(n.1))
  }

  /** `irand`: some value of the closed range, `min` itself when the range
      has one element; the C++ distribution needs `min <= max`. */
  method Irand(min: int, max: int) returns (r: int)
    requires min <= max
    ensures min <= r <= max
    ensures min == max ==> r == min
  {
    if min == max {
      r := min;
    } else {
      r :| min <= r <= max;
    }
  }

  /** `std::shuffle` on the direction list: a Fisher-Yates pass driven by
      the oracle, yielding some permutation of its input. */
  method Shuffle(s: seq<Direction>) returns (r: seq<Direction>)
    ensures |r| == |s| && multiset(r) == multiset(s)
  {
    r := s;
    var i := |r|;
    while i > 1
      invariant 0 <= i <= |r| == |s|
      invariant multiset(r) == multiset(s)
    {
      var j := Irand(0, i - 1);
      var a, b := r[i - 1], r[j];
      r := r[i - 1 := b][j := a];
      i := i - 1;
    }
  }

  /** A shuffled direction list still holds each of the four directions. */
  lemma ShuffledDirs(r: seq<Direction>)
    requires multiset(r) == multiset(Dirs)
    ensures |r| == 4
    ensures forall d :: d in r <==> d != None
  {
    assert |r| == |multiset(r)| == 4;
    forall d ensures d in r <==> d != None {
      calc {
        d in r;
        d in multiset(r);
        d in multiset(Dirs);
        d in Dirs;
      }
    }
  }

  /** `hasUnvisitedNeighbors`: some direction reaches an in-grid neighbour
      that is still untouched, that is, the cell is not settled. */
  function HasUnvisitedNeighbors(row: int, col: int, maze: Maze): (b: bool)
    reads maze
    requires maze.Valid() && InGrid(maze.rows, maze.cols, row, col)
    ensures b <==> exists d | d in Dirs :: !maze.IsVisited(row, col, d)
    ensures b <==> !Settled(maze.grid, maze.rows, maze.cols, row, col)
  {
    !maze.IsVisited(row, col, Up) || !maze.IsVisited(row, col, Left) ||
    !maze.IsVisited(row, col, Down) || !maze.IsVisited(row, col, Right)
  }

  /** An entry of growing tree's work list: a cell and the direction it
      was entered by. */
  datatype Frontier = Frontier(pos: Vector2u, came: Direction)

  /** `getCell`: an entry of the non-empty list, picked by the oracle. */
  method GetCell(cells: seq<Frontier>) returns (cell: Frontier)
    requires |cells| > 0
    ensures cell in cells
  {
    var i := Irand(0, |cells| - 1);
    cell := cells[i];
  }

  /** `std::find`: the first index holding `x`, or `|s|` when there is none. */
  function Find<T(==)>(s: seq<T>, x: T): (i: nat)
    ensures i <= |s| && (i < |s| <==> x in s)
    ensures i < |s| ==> s[i] == x
    ensures forall j | 0 <= j < i :: s[j] != x
  {
    if s == [] then 0 else if s[0] == x then 0 else 1 + Find(s[1..], x)
  }

  /** `pickOrientation`: vertical (`true`) for a region wider than it is
      tall, horizontal for a taller one, a coin flip for a square. */
  method PickOrientation(width: int, height: int) returns (vertical: bool)
    ensures width > height ==> vertical
    ensures width < height ==> !vertical
  {
    if width <= height {
      if width == height {
        var coin := Irand(0, 100);
        vertical := coin > 50;
      } else {
        vertical := false;
      }
    } else {
      vertical := true;
    }
  }
}

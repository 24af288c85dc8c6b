/** Board geometry: the 9x9 cell lattice, the 8x8 lattice of wall
    intersections and the test whether a wall cuts a one-step move. */
module Geometry {

  /** Cells per side of the board. */
  const BOARD_SIZE: int := 9
  /** Wall intersections per side of the wall grid. */
  const WALL_GRID_SIZE: int := 8

  /** The content of one wall intersection. */
  datatype WallDir = NoWall | Vertical | Horizontal

  /** The numeric code the game stores for a wall direction (0, 1, 2). */
  function DirCode(d: WallDir): (c: int)
    ensures 0 <= c <= 2
    ensures d == NoWall <==> c == 0
  {
    match d
    case NoWall => 0
    case Vertical => 1
    case Horizontal => 2
  }

  /** An 8x8 wall grid, indexed `walls[wy][wx]`. */
  type Walls = w: seq<seq<WallDir>> | |w| == 8 && forall i :: 0 <= i < |w| ==> |w[i]| == 8
    witness seq(8, i => seq(8, j => NoWall))

  /** A board cell or a token position. */
  datatype Pos = Pos(x: int, y: int)

  /** The grid with no wall at all. */
  function EmptyWalls(): (w: Walls)
    ensures forall wy, wx :: 0 <= wy < 8 && 0 <= wx < 8 ==> w[wy][wx] == NoWall
  {
    seq(8, i => seq(8, j => NoWall))
  }

  /** The grid `w` with intersection (wx, wy) set to `d`. */
  function PlaceWall(w: Walls, wx: int, wy: int, d: WallDir): (r: Walls)
    requires 0 <= wx < 8 && 0 <= wy < 8
    ensures r[wy][wx] == d
    ensures forall j, i :: 0 <= j < 8 && 0 <= i < 8 && (j != wy || i != wx) ==> r[j][i] == w[j][i]
  {
    w[wy := w[wy][wx := d]]
  }

  /** True iff both coordinates lie on the 9x9 board. */
  predicate ValidCell(x: int, y: int) {
    x >= 0 && x < BOARD_SIZE && y >= 0 && y < BOARD_SIZE
  }

  predicate ValidPos(p: Pos) {
    ValidCell(p.x, p.y)
  }

  /** Whether a vertical wall cuts the step from (x, y) to (x+1, y): the wall
      may be anchored at the intersection above or below that edge. Only wall
      indices inside the 8x8 grid are read. */
  predicate IsBlockedRight(walls: Walls, x: int, y: int)
    requires 0 <= x < WALL_GRID_SIZE && 0 <= y < BOARD_SIZE
  {
    (y > 0 && walls[y - 1][x] == Vertical) || (y < WALL_GRID_SIZE && walls[y][x] == Vertical)
  }

  /** Whether a horizontal wall cuts the step from (x, y) to (x, y+1). */
  predicate IsBlockedDown(walls: Walls, x: int, y: int)
    requires 0 <= x < BOARD_SIZE && 0 <= y < WALL_GRID_SIZE
  {
    (x > 0 && walls[y][x - 1] == Horizontal) || (x < WALL_GRID_SIZE && walls[y][x] == Horizontal)
  }

  /** Whether a wall cuts the one-step move from (x1, y1) to (x2, y2). Left
      and up moves are looked up as the right and down moves from the other
      cell; cells that are not orthogonal neighbours are never blocked. */
  predicate IsBlocked(walls: Walls, x1: int, y1: int, x2: int, y2: int)
    requires ValidCell(x1, y1) && ValidCell(x2, y2)
  {
    var dx, dy := x2 - x1, y2 - y1;
    if dx == 1 && dy == 0 then IsBlockedRight(walls, x1, y1)
    else if dx == -1 && dy == 0 then IsBlockedRight(walls, x2, y2)
    else if dx == 0 && dy == 1 then IsBlockedDown(walls, x1, y1)
    else if dx == 0 && dy == -1 then IsBlockedDown(walls, x2, y2)
    else false
  }

  /** A step between two cells is blocked in one direction exactly when it
      is blocked in the other. */
  lemma BlockedSymmetric(walls: Walls, x1: int, y1: int, x2: int, y2: int)
    requires ValidCell(x1, y1) && ValidCell(x2, y2)
    ensures IsBlocked(walls, x1, y1, x2, y2) == IsBlocked(walls, x2, y2, x1, y1)
  {
  }

  /** A vertical wall anchored at (wx, wy) cuts the two horizontal steps
      between columns wx and wx+1 in rows wy and wy+1. */
  lemma VerticalWallBlocks(w: Walls, wx: int, wy: int)
    requires 0 <= wx < 8 && 0 <= wy < 8
    ensures var r := PlaceWall(w, wx, wy, Vertical);
      IsBlocked(r, wx, wy, wx + 1, wy) && IsBlocked(r, wx, wy + 1, wx + 1, wy + 1)
  {
  }

  /** A horizontal wall anchored at (wx, wy) cuts the two vertical steps
      between rows wy and wy+1 in columns wx and wx+1. */
  lemma HorizontalWallBlocks(w: Walls, wx: int, wy: int)
    requires 0 <= wx < 8 && 0 <= wy < 8
    ensures var r := PlaceWall(w, wx, wy, Horizontal);
      IsBlocked(r, wx, wy, wx, wy + 1) && IsBlocked(r, wx + 1, wy, wx + 1, wy + 1)
  {
  }

  /** Putting a wall on an empty intersection unblocks nothing. */
  lemma AddedWallKeepsBlocks(w: Walls, wx: int, wy: int, d: WallDir, x1: int, y1: int, x2: int, y2: int)
    requires 0 <= wx < 8 && 0 <= wy < 8 && w[wy][wx] == NoWall
    requires ValidCell(x1, y1) && ValidCell(x2, y2)
    ensures IsBlocked(w, x1, y1, x2, y2) ==> IsBlocked(PlaceWall(w, wx, wy, d), x1, y1, x2, y2)
  {
  }

  /** On the empty grid no step is blocked. */
  lemma EmptyGridBlocksNothing(x1: int, y1: int, x2: int, y2: int)
    requires ValidCell(x1, y1) && ValidCell(x2, y2)
    ensures !IsBlocked(EmptyWalls(), x1, y1, x2, y2)
  {
  }

  /** The four step directions, in the order the game tries them:
      up, down, left, right. */
  function DX(k: int): int {
    if k == 2 then -1 else if k == 3 then 1 else 0
  }

  function DY(k: int): int {
    if k == 0 then -1 else if k == 1 then 1 else 0
  }

  /** The step itself, as a value. */
  const Step: (Pos, int) -> Pos := (p: Pos, k: int) => Pos(p.x + DX(k), p.y + DY(k))

  /** The cell one step from `p` in direction `k`. */
  function Neighbor(p: Pos, k: int): (n: Pos)
    ensures n.x == p.x + DX(k) && n.y == p.y + DY(k)
  {
    Step(p, k)
  }

  /** The direction that undoes direction `k`. */
  function Opposite(k: int): (j: int)
    requires 0 <= k < 4
    ensures 0 <= j < 4
    ensures forall p :: Neighbor(Neighbor(p, k), j) == p
  {
    if k == 0 then 1 else if k == 1 then 0 else if k == 2 then 3 else 2
  }

  /** Whether `b` is an on-board orthogonal neighbour of `a` that a step from
      `a` reaches without crossing a wall. */
  predicate OpenStep(walls: Walls, a: Pos, b: Pos) {
    ValidPos(a) && ValidPos(b) && !IsBlocked(walls, a.x, a.y, b.x, b.y)
  }
}

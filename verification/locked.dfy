/** The "locked distance" test: a token's distance to its goal row is
    locked when the opponent has no walls left, or when the token already
    stands on its goal row, or when it has a single shortest route and no
    wall the opponent could put changes its distance. */
module Locked {
  import opened Geometry
  import opened Distance
  import opened Game
  import opened Board
  import opened Paths

  /** Putting a wall of direction `dir` at (wx, wy), if the grid admits
      it, leaves the distance of `p` to row `goalY` at `dist`. */
  ghost predicate KeepsDistance(walls: Walls, wx: int, wy: int, dir: WallDir, p: Pos, goalY: int, dist: int)
    requires 0 <= wx < 8 && 0 <= wy < 8 && ValidPos(p) && 0 <= goalY < 9
  {
    CanPlaceWallAt(walls, wx, wy, dir) ==> Get(DistanceMap(PlaceWall(walls, wx, wy, dir), goalY), p) == dist
  }

  /** Every wall the grid admits in row `wy` leaves the distance of `p` at
      `dist`. */
  ghost predicate RowKeeps(walls: Walls, wy: int, p: Pos, goalY: int, dist: int)
    requires 0 <= wy < 8 && ValidPos(p) && 0 <= goalY < 9
  {
    forall wx :: 0 <= wx < 8 ==>
      KeepsDistance(walls, wx, wy, Vertical, p, goalY, dist) && KeepsDistance(walls, wx, wy, Horizontal, p, goalY, dist)
  }

  /** Every wall the grid admits leaves the distance of `p` at `dist`. */
  ghost predicate AllWallsKeep(walls: Walls, p: Pos, goalY: int, dist: int)
    requires ValidPos(p) && 0 <= goalY < 9
  {
    forall wy :: 0 <= wy < 8 ==> RowKeeps(walls, wy, p, goalY, dist)
  }

  /** The lock test at cell (x, y): locked when the opponent holds no
      walls; otherwise not locked when the goal row cannot be reached,
      locked on the goal row, not locked when the count reports more than
      one shortest route, and otherwise locked when no admitted wall
      changes the distance. */
  ghost function LockedAt(walls: Walls, x: int, y: int, goalY: int, opponentWallsLeft: int): bool
    requires ValidCell(x, y) && 0 <= goalY < 9
  {
    if opponentWallsLeft == 0 then true
    else
      var dm := DistanceMap(walls, goalY);
      var dist := Get(dm, Pos(x, y));
      if dist == -1 then false
      else if dist == 0 then true
      else if CountShortestPaths(walls, Pos(x, y), dm) > 1 then false
      else AllWallsKeep(walls, Pos(x, y), goalY, dist)
  }

  /** What a lock means. A locked cell reaches the goal row, and no single
      wall changes its distance (unless the opponent is out of walls).
      Conversely a cell with a single shortest route that no wall
      lengthens is locked. Within 21 steps of the goal row, where the
      route count is exact, locked means exactly that. */
  lemma LockedAtMeaning(walls: Walls, x: int, y: int, goalY: int, opponentWallsLeft: int)
    requires ValidCell(x, y) && 0 <= goalY < 9 && opponentWallsLeft != 0
    ensures var dm, p := DistanceMap(walls, goalY), Pos(x, y);
      LockedAt(walls, x, y, goalY, opponentWallsLeft) ==>
        Get(dm, p) >= 0 && (Get(dm, p) > 0 ==> AllWallsKeep(walls, p, goalY, Get(dm, p)))
    ensures var dm, p := DistanceMap(walls, goalY), Pos(x, y);
      Get(dm, p) > 0 && NumPaths(walls, dm, p) == 1 && AllWallsKeep(walls, p, goalY, Get(dm, p)) ==>
        LockedAt(walls, x, y, goalY, opponentWallsLeft)
    ensures var dm, p := DistanceMap(walls, goalY), Pos(x, y);
      Get(dm, p) <= DEPTH_LIMIT + 1 ==>
        (LockedAt(walls, x, y, goalY, opponentWallsLeft) <==>
          Get(dm, p) == 0 || (Get(dm, p) > 0 && NumPaths(walls, dm, p) == 1 && AllWallsKeep(walls, p, goalY, Get(dm, p))))
  {
    var dm, p := DistanceMap(walls, goalY), Pos(x, y);
    CountShortestPathsSound(walls, goalY, dm, p);
    if Get(dm, p) >= 0 {
      RouteExists(walls, goalY, dm, p);
    }
  }

  /** The lock test as the game runs it: the route count, then every wall
      the grid admits, vertical before horizontal, row by row, stopping at
      the first that changes the distance. */
  method IsDistanceLockedAt(walls: Walls, x: int, y: int, goalY: int, opponentWallsLeft: int) returns (locked: bool)
    requires ValidCell(x, y) && 0 <= goalY < 9
    ensures locked == LockedAt(walls, x, y, goalY, opponentWallsLeft)
  {
    if opponentWallsLeft == 0 {
      return true;
    }
    var currentDistMap := GetDistanceMap(walls, goalY);
    var currentDist := Get(currentDistMap, Pos(x, y));
    if currentDist == -1 {
      return false;
    }
    if currentDist == 0 {
      return true;
    }
    var pathCount := CountShortestPathsOf(walls, x, y, currentDistMap);
    if pathCount > 1 {
      return false;
    }
    locked := AllWallsKeepDistance(walls, Pos(x, y), goalY, currentDist);
  }

  /** Whether every wall the grid admits keeps the distance, row by row. */
  method AllWallsKeepDistance(walls: Walls, p: Pos, goalY: int, dist: int) returns (keeps: bool)
    requires ValidPos(p) && 0 <= goalY < 9
    ensures keeps == AllWallsKeep(walls, p, goalY, dist)
  {
    for wy := 0 to WALL_GRID_SIZE
      invariant forall j :: 0 <= j < wy ==> RowKeeps(walls, j, p, goalY, dist)
    {
      var rowKeeps := RowKeepsDistance(walls, wy, p, goalY, dist);
      if !rowKeeps {
        return false;
      }
    }
    return true;
  }

  /** Whether every wall the grid admits in row `wy` keeps the distance. */
  method RowKeepsDistance(walls: Walls, wy: int, p: Pos, goalY: int, dist: int) returns (keeps: bool)
    requires 0 <= wy < 8 && ValidPos(p) && 0 <= goalY < 9
    ensures keeps == RowKeeps(walls, wy, p, goalY, dist)
  {
    for wx := 0 to WALL_GRID_SIZE
      invariant forall i :: 0 <= i < wx ==>
        KeepsDistance(walls, i, wy, Vertical, p, goalY, dist) && KeepsDistance(walls, i, wy, Horizontal, p, goalY, dist)
    {
      var keepsV := WallKeepsDistance(walls, wx, wy, Vertical, p, goalY, dist);
      if !keepsV {
        return false;
      }
      var keepsH := WallKeepsDistance(walls, wx, wy, Horizontal, p, goalY, dist);
      if !keepsH {
        return false;
      }
    }
    return true;
  }

  /** One candidate wall: put it on a copy of the grid and compare the
      distance. */
  method WallKeepsDistance(walls: Walls, wx: int, wy: int, dir: WallDir, p: Pos, goalY: int, dist: int) returns (keeps: bool)
    requires 0 <= wx < 8 && 0 <= wy < 8 && ValidPos(p) && 0 <= goalY < 9
    ensures keeps == KeepsDistance(walls, wx, wy, dir, p, goalY, dist)
  {
    if !CanPlaceWallAt(walls, wx, wy, dir) {
      return true;
    }
    var testWalls := PlaceWall(walls, wx, wy, dir);
    var newDistMap := GetDistanceMap(testWalls, goalY);
    return Get(newDistMap, p) == dist;
  }

  // ---------------------------------------------------------------------
  // The lock test for a game state

  /** The lock test for player `i`'s token, against the opponent's wall
      stock. */
  ghost function DistanceLocked(s: State, i: PlayerIndex): (r: bool)
    requires WellFormed(s)
    ensures s.players[1 - i].wallsLeft == 0 ==> r
    ensures r && s.players[1 - i].wallsLeft != 0 ==> Get(DistanceMap(s.walls, GoalRow(i)), PosOf(s.players[i])) >= 0
  {
    LockedAt(s.walls, s.players[i].x, s.players[i].y, GoalRow(i), s.players[1 - i].wallsLeft)
  }

  /** The locked distance of player `i`: its distance when locked, else
      -1. */
  ghost function LockedDistance(s: State, i: PlayerIndex): (r: int)
    requires WellFormed(s)
    ensures var dist := Get(DistanceMap(s.walls, GoalRow(i)), PosOf(s.players[i]));
      && (r == -1 || r == dist)
      && (r >= 0 <==> DistanceLocked(s, i) && dist >= 0)
  {
    if !DistanceLocked(s, i) then -1
    else Get(DistanceMap(s.walls, GoalRow(i)), PosOf(s.players[i]))
  }

  /** The lock test for player `i`, as the game runs it. */
  method IsDistanceLocked(s: State, i: PlayerIndex) returns (locked: bool)
    requires WellFormed(s)
    ensures locked == DistanceLocked(s, i)
  {
    var player := s.players[i];
    var opponent := s.players[1 - i];
    locked := IsDistanceLockedAt(s.walls, player.x, player.y, GoalRow(i), opponent.wallsLeft);
  }

  /** The locked distance of player `i`, as the game computes it. */
  method GetLockedDistance(s: State, i: PlayerIndex) returns (dist: int)
    requires WellFormed(s)
    ensures dist == LockedDistance(s, i)
  {
    var locked := IsDistanceLocked(s, i);
    if !locked {
      return -1;
    }
    var player := s.players[i];
    var distanceMap := GetDistanceMap(s.walls, GoalRow(i));
    return Get(distanceMap, PosOf(player));
  }

  /** Cell `q`'s entry in the locked-distance map of player `i`: its
      distance when it reaches the goal row and the lock test holds there,
      else -1. */
  ghost function LockedCell(s: State, i: PlayerIndex, q: Pos): int
    requires ValidPos(q)
  {
    var dist := Get(DistanceMap(s.walls, GoalRow(i)), q);
    if dist >= 0 && LockedAt(s.walls, q.x, q.y, GoalRow(i), s.players[1 - i].wallsLeft) then dist else -1
  }

  /** The locked-distance map of player `i`. */
  ghost function LockedDistanceMap(s: State, i: PlayerIndex): Grid {
    seq(9, y requires 0 <= y < 9 => seq(9, x requires 0 <= x < 9 => LockedCell(s, i, Pos(x, y))))
  }

  /** The map agrees with the locked distance at the player's own cell. */
  lemma LockedMapAtPlayer(s: State, i: PlayerIndex)
    requires WellFormed(s)
    ensures Get(LockedDistanceMap(s, i), PosOf(s.players[i])) == LockedDistance(s, i)
  {
    var p := PosOf(s.players[i]);
    assert Get(LockedDistanceMap(s, i), p) == LockedCell(s, i, p);
  }

  method GetLockedDistanceMap(s: State, i: PlayerIndex) returns (lockedMap: Grid)
    ensures lockedMap == LockedDistanceMap(s, i)
  {
    var opponent := s.players[1 - i];
    var goalY := GoalRow(i);
    var distanceMap := GetDistanceMap(s.walls, goalY);
    lockedMap := BlankGrid();
    for y := 0 to BOARD_SIZE
      invariant forall q {:trigger Get(lockedMap, q)} :: ValidPos(q) ==>
        Get(lockedMap, q) == if q.y < y then LockedCell(s, i, q) else -1
    {
      lockedMap := FillLockedRow(s, i, distanceMap, lockedMap, y);
    }
    GridExt(lockedMap, LockedDistanceMap(s, i));
  }

  /** Fill row `y` of the map, cell by cell. */
  method FillLockedRow(s: State, i: PlayerIndex, distanceMap: Grid, lockedMap0: Grid, y: int) returns (lockedMap: Grid)
    requires 0 <= y < 9 && distanceMap == DistanceMap(s.walls, GoalRow(i))
    ensures forall q {:trigger Get(lockedMap, q)} :: ValidPos(q) ==>
      Get(lockedMap, q) == if q.y == y then LockedCell(s, i, q) else Get(lockedMap0, q)
  {
    lockedMap := lockedMap0;
    for x := 0 to BOARD_SIZE
      invariant forall q {:trigger Get(lockedMap, q)} :: ValidPos(q) ==>
        Get(lockedMap, q) == if q.y == y && q.x < x then LockedCell(s, i, q) else Get(lockedMap0, q)
    {
      var v := LockedCellOf(s, i, distanceMap, x, y);
      GetSet(lockedMap, Pos(x, y), v);
      lockedMap := Set(lockedMap, Pos(x, y), v);
    }
  }

  /** One cell of the map: its distance when reachable and locked. */
  method LockedCellOf(s: State, i: PlayerIndex, distanceMap: Grid, x: int, y: int) returns (v: int)
    requires ValidCell(x, y) && distanceMap == DistanceMap(s.walls, GoalRow(i))
    ensures v == LockedCell(s, i, Pos(x, y))
  {
    v := -1;
    var dist := Get(distanceMap, Pos(x, y));
    if dist >= 0 {
      var locked := IsDistanceLockedAt(s.walls, x, y, GoalRow(i), s.players[1 - i].wallsLeft);
      if locked {
        v := dist;
      }
    }
  }
}

/** The rules of play: where the token to move may go, where a wall may be
    put, the victory test, and the two ways a move changes a state (in
    place on a game object, or into a new state value). */
module Board {
  import opened Wrappers
  import opened Geometry
  import opened Distance
  import opened Game
  import opened Reach

  /** Both tokens stand on the board. */
  predicate WellFormed(s: State) {
    forall i: PlayerIndex :: ValidPos(PosOf(s.players[i]))
  }

  // ---------------------------------------------------------------------
  // Token moves

  /** A destination offered to the token to move: a placement on its start
      row (turns 1 and 2) or an ordinary move. */
  datatype MoveKind = Place | Step
  datatype CellMove = CellMove(x: int, y: int, kind: MoveKind)

  /** The two side-step directions tried when a straight jump over the
      opponent is cut off: left and right after a vertical step, up and
      down after a horizontal one. */
  function DiagonalDirs(k: int): (r: seq<int>)
    requires 0 <= k < 4
    ensures |r| == 2 && 0 <= r[0] < 4 && 0 <= r[1] < 4
    ensures forall i :: 0 <= i < 2 ==> DX(k) * DX(r[i]) + DY(k) * DY(r[i]) == 0
    ensures r[1] == Opposite(r[0])
  {
    if DX(k) == 0 then [2, 3] else [0, 1]
  }

  /** The side steps from the opponent's cell `n`, for the first `i` of
      the two side directions, in order. */
  function SideSteps(walls: Walls, n: Pos, k: int, i: int): seq<CellMove>
    requires 0 <= k < 4 && 0 <= i <= 2
  {
    if i == 0 then []
    else
      var t := Neighbor(n, DiagonalDirs(k)[i - 1]);
      SideSteps(walls, n, k, i - 1) + (if OpenStep(walls, n, t) then [CellMove(t.x, t.y, Step)] else [])
  }

  /** What direction `k` offers a token on `p` with the opponent on `o`:
      nothing if the board edge or a wall is in the way, the neighbour cell
      if it is free, otherwise the jump over the opponent if that is open,
      otherwise the open side steps next to the opponent. */
  function DirectionMoves(walls: Walls, p: Pos, o: Pos, k: int): seq<CellMove>
    requires 0 <= k < 4
  {
    var n := Neighbor(p, k);
    if !OpenStep(walls, p, n) then []
    else if o != n then [CellMove(n.x, n.y, Step)]
    else
      var j := Neighbor(n, k);
      if OpenStep(walls, n, j) then [CellMove(j.x, j.y, Step)]
      else SideSteps(walls, n, k, 2)
  }

  /** The moves of the first `k` directions (up, down, left, right). */
  function MovesUpTo(walls: Walls, p: Pos, o: Pos, k: int): seq<CellMove>
    requires 0 <= k <= 4
  {
    if k == 0 then [] else MovesUpTo(walls, p, o, k - 1) + DirectionMoves(walls, p, o, k - 1)
  }

  /** The nine cells of the start row of player `i`. */
  function PlacementMoves(i: PlayerIndex): seq<CellMove> {
    seq(9, x => CellMove(x, StartRow(i), Place))
  }

  /** Every destination the token to move is offered. */
  function ValidMoves(s: State): seq<CellMove>
    requires WellFormed(s)
  {
    if IsPlacementPhase(s) then PlacementMoves(s.currentPlayer)
    else MovesUpTo(s.walls, PosOf(Current(s)), PosOf(Opponent(s)), 4)
  }

  /** The destinations, computed as the game does: one pass over the four
      directions, with the side steps tried when a jump is cut off. */
  method GetValidMoves(s: State) returns (moves: seq<CellMove>)
    requires WellFormed(s)
    ensures moves == ValidMoves(s)
  {
    if IsPlacementPhase(s) {
      moves := [];
      var startY := if s.currentPlayer == 0 then 0 else 8;
      for x := 0 to BOARD_SIZE
        invariant moves == seq(x, i => CellMove(i, startY, Place))
      {
        moves := moves + [CellMove(x, startY, Place)];
      }
      return;
    }
    var player := Current(s);
    var opponent := Opponent(s);
    moves := [];
    for k := 0 to 4
      invariant moves == MovesUpTo(s.walls, PosOf(player), PosOf(opponent), k)
    {
      var dirMoves := GetDirectionMoves(s.walls, PosOf(player), PosOf(opponent), k);
      moves := moves + dirMoves;
    }
  }

  /** One pass of the direction loop: the edge and wall tests, then the
      plain step, the jump or the side steps. */
  method GetDirectionMoves(walls: Walls, p: Pos, o: Pos, k: int) returns (moves: seq<CellMove>)
    requires 0 <= k < 4 && ValidPos(p)
    ensures moves == DirectionMoves(walls, p, o, k)
  {
    var nx, ny := p.x + DX(k), p.y + DY(k);
    assert Pos(nx, ny) == Neighbor(p, k);
    if !ValidCell(nx, ny) || IsBlocked(walls, p.x, p.y, nx, ny) {
      return [];
    }
    if o.x != nx || o.y != ny {
      return [CellMove(nx, ny, Step)];
    }
    var jumpX, jumpY := nx + DX(k), ny + DY(k);
    assert Pos(jumpX, jumpY) == Neighbor(Neighbor(p, k), k);
    if ValidCell(jumpX, jumpY) && !IsBlocked(walls, nx, ny, jumpX, jumpY) {
      moves := [CellMove(jumpX, jumpY, Step)];
    } else {
      moves := GetSideSteps(walls, Pos(nx, ny), k);
    }
  }

  /** The side steps next to the opponent on `n`, in the order of
      `DiagonalDirs(k)`. */
  method GetSideSteps(walls: Walls, n: Pos, k: int) returns (moves: seq<CellMove>)
    requires 0 <= k < 4 && ValidPos(n)
    ensures moves == SideSteps(walls, n, k, 2)
  {
    var diagonals := DiagonalDirs(k);
    moves := [];
    for i := 0 to 2
      invariant moves == SideSteps(walls, n, k, i)
    {
      var diagX, diagY := n.x + DX(diagonals[i]), n.y + DY(diagonals[i]);
      assert Pos(diagX, diagY) == Neighbor(n, DiagonalDirs(k)[i]);
      if ValidCell(diagX, diagY) && !IsBlocked(walls, n.x, n.y, diagX, diagY) {
        moves := moves + [CellMove(diagX, diagY, Step)];
      }
    }
  }

  /** In the placement phase the offer is exactly the nine cells of the
      mover's start row. */
  lemma PlacementOffersStartRow(s: State)
    requires WellFormed(s) && IsPlacementPhase(s)
    ensures |ValidMoves(s)| == 9
    ensures forall m: CellMove :: m in ValidMoves(s) <==> m.kind == Place && m.y == StartRow(s.currentPlayer) && 0 <= m.x < 9
  {
    var ms := ValidMoves(s);
    forall m: CellMove | m.kind == Place && m.y == StartRow(s.currentPlayer) && 0 <= m.x < 9
      ensures m in ms
    {
      assert ms[m.x] == m;
    }
  }

  /** A destination is an ordinary move to an on-board cell that is neither
      the mover's nor the opponent's. */
  predicate LandsFree(m: CellMove, p: Pos, o: Pos) {
    m.kind == Step && ValidCell(m.x, m.y) && Pos(m.x, m.y) != p && Pos(m.x, m.y) != o
  }

  lemma SideStepsLandFree(walls: Walls, p: Pos, k: int, i: int)
    requires 0 <= k < 4 && 0 <= i <= 2
    ensures forall m :: m in SideSteps(walls, Neighbor(p, k), k, i) ==> LandsFree(m, p, Neighbor(p, k))
  {
    if i > 0 {
      SideStepsLandFree(walls, p, k, i - 1);
    }
  }

  lemma {:induction false} MovesUpToLandFree(walls: Walls, p: Pos, o: Pos, k: int)
    requires 0 <= k <= 4
    ensures forall m :: m in MovesUpTo(walls, p, o, k) ==> LandsFree(m, p, o)
  {
    if k > 0 {
      MovesUpToLandFree(walls, p, o, k - 1);
      SideStepsLandFree(walls, p, k - 1, 2);
    }
  }

  /** Outside the placement phase every destination is an on-board cell
      other than the two occupied ones. */
  lemma MovesLandFree(s: State)
    requires WellFormed(s) && !IsPlacementPhase(s)
    ensures forall m :: m in ValidMoves(s) ==> LandsFree(m, PosOf(Current(s)), PosOf(Opponent(s)))
  {
    MovesUpToLandFree(s.walls, PosOf(Current(s)), PosOf(Opponent(s)), 4);
  }

  lemma {:induction false} MovesUpToIncludes(walls: Walls, p: Pos, o: Pos, k: int, j: int)
    requires 0 <= j < k <= 4
    ensures forall m :: m in DirectionMoves(walls, p, o, j) ==> m in MovesUpTo(walls, p, o, k)
  {
    var prev, last := MovesUpTo(walls, p, o, k - 1), DirectionMoves(walls, p, o, k - 1);
    assert MovesUpTo(walls, p, o, k) == prev + last;
    if j < k - 1 {
      MovesUpToIncludes(walls, p, o, k - 1, j);
      forall m | m in DirectionMoves(walls, p, o, j)
        ensures m in prev + last
      {
        assert m in prev;
      }
    } else {
      forall m | m in last
        ensures m in prev + last
      {
      }
    }
  }

  /** Every open step to a free neighbour is offered, and so is the straight
      jump over an adjacent opponent when nothing cuts it off. */
  lemma OpenStepsOffered(s: State, k: int)
    requires WellFormed(s) && !IsPlacementPhase(s) && 0 <= k < 4
    ensures var p, o := PosOf(Current(s)), PosOf(Opponent(s));
            var n := Neighbor(p, k);
            OpenStep(s.walls, p, n) && n != o ==> CellMove(n.x, n.y, Step) in ValidMoves(s)
    ensures var p, o := PosOf(Current(s)), PosOf(Opponent(s));
            var n := Neighbor(p, k);
            var j := Neighbor(n, k);
            OpenStep(s.walls, p, n) && n == o && OpenStep(s.walls, n, j) ==> CellMove(j.x, j.y, Step) in ValidMoves(s)
  {
    MovesUpToIncludes(s.walls, PosOf(Current(s)), PosOf(Opponent(s)), 4, k);
  }

  /** Cell `c` is one of the two side cells next to the opponent's cell `n`
      (across direction `k`) and no wall or edge separates it from `n`. */
  predicate SideOpen(walls: Walls, n: Pos, k: int, c: Pos)
    requires 0 <= k < 4
  {
    (c == Neighbor(n, DiagonalDirs(k)[0]) || c == Neighbor(n, DiagonalDirs(k)[1])) && OpenStep(walls, n, c)
  }

  /** The movement rule for one direction `k`, destination by destination:
      an ordinary move through an open side of `p`, landing on the free
      neighbour, or on the cell behind an adjacent opponent when that is
      open, or else on an open side cell of the opponent. */
  predicate Offers(walls: Walls, p: Pos, o: Pos, k: int, m: CellMove)
    requires 0 <= k < 4
  {
    var n := Neighbor(p, k);
    var j := Neighbor(n, k);
    var c := Pos(m.x, m.y);
    && m.kind == Step
    && OpenStep(walls, p, n)
    && (if n != o then c == n
        else if OpenStep(walls, n, j) then c == j
        else SideOpen(walls, n, k, c))
  }

  /** The side steps are exactly the open side cells of the opponent. */
  lemma SideStepsExactly(walls: Walls, n: Pos, k: int, m: CellMove)
    requires 0 <= k < 4
    ensures m in SideSteps(walls, n, k, 2) <==> m.kind == Step && SideOpen(walls, n, k, Pos(m.x, m.y))
  {
    assert SideSteps(walls, n, k, 1) == SideSteps(walls, n, k, 0)
      + (if OpenStep(walls, n, Neighbor(n, DiagonalDirs(k)[0])) then [CellMove(Neighbor(n, DiagonalDirs(k)[0]).x, Neighbor(n, DiagonalDirs(k)[0]).y, Step)] else []);
  }

  /** One direction lists exactly the destinations the rule gives it. */
  lemma DirectionMovesExactly(walls: Walls, p: Pos, o: Pos, k: int, m: CellMove)
    requires 0 <= k < 4
    ensures m in DirectionMoves(walls, p, o, k) <==> Offers(walls, p, o, k, m)
  {
    SideStepsExactly(walls, Neighbor(p, k), k, m);
  }

  /** The first `kk` directions list exactly what the rule gives them. */
  lemma {:induction false} MovesUpToExactly(walls: Walls, p: Pos, o: Pos, kk: int, m: CellMove)
    requires 0 <= kk <= 4
    ensures m in MovesUpTo(walls, p, o, kk) <==> exists k :: 0 <= k < kk && Offers(walls, p, o, k, m)
  {
    if kk > 0 {
      MovesUpToExactly(walls, p, o, kk - 1, m);
      DirectionMovesExactly(walls, p, o, kk - 1, m);
      assert MovesUpTo(walls, p, o, kk) == MovesUpTo(walls, p, o, kk - 1) + DirectionMoves(walls, p, o, kk - 1);
      if Offers(walls, p, o, kk - 1, m) {
        assert exists k :: 0 <= k < kk && Offers(walls, p, o, k, m);
      }
    }
  }

  /** Outside the placement phase, a destination is offered exactly when
      the movement rule gives it for one of the four directions. */
  lemma ValidMovesExactly(s: State, m: CellMove)
    requires WellFormed(s) && !IsPlacementPhase(s)
    ensures m in ValidMoves(s) <==> exists k :: 0 <= k < 4 && Offers(s.walls, PosOf(Current(s)), PosOf(Opponent(s)), k, m)
  {
    MovesUpToExactly(s.walls, PosOf(Current(s)), PosOf(Opponent(s)), 4, m);
  }

  /** When the jump over an adjacent opponent is cut off, every open side
      cell of the opponent is offered. */
  lemma OpenSideStepsOffered(s: State, k: int, i: int)
    requires WellFormed(s) && !IsPlacementPhase(s) && 0 <= k < 4 && 0 <= i < 2
    ensures var p, o := PosOf(Current(s)), PosOf(Opponent(s));
            var n := Neighbor(p, k);
            var j := Neighbor(n, k);
            var t := Neighbor(n, DiagonalDirs(k)[i]);
            (OpenStep(s.walls, p, n) && n == o && !OpenStep(s.walls, n, j) && OpenStep(s.walls, n, t)) ==>
              CellMove(t.x, t.y, Step) in ValidMoves(s)
  {
    var p, o := PosOf(Current(s)), PosOf(Opponent(s));
    var t := Neighbor(Neighbor(p, k), DiagonalDirs(k)[i]);
    ValidMovesExactly(s, CellMove(t.x, t.y, Step));
    if Offers(s.walls, p, o, k, CellMove(t.x, t.y, Step)) {
      assert exists k' :: 0 <= k' < 4 && Offers(s.walls, p, o, k', CellMove(t.x, t.y, Step));
    }
  }

  // ---------------------------------------------------------------------
  // Victory

  /** Player 0 wins on row 8, player 1 on row 0; player 0 is checked
      first. */
  function CheckVictory(players: Players): (r: Option<PlayerIndex>)
    ensures r == Some(0) <==> players[0].y == 8
    ensures r == Some(1) <==> players[0].y != 8 && players[1].y == 0
    ensures r.Some? ==> players[r.value].y == GoalRow(r.value)
  {
    if players[0].y == 8 then Some(0)
    else if players[1].y == 0 then Some(1)
    else None
  }

  /** The game is over once a winner is recorded or a token stands on its
      goal row. */
  predicate IsGameOver(s: State)
    ensures IsGameOver(s) <==> s.winner.Some? || CheckVictory(s.players).Some?
  {
    s.winner.Some? || s.players[0].y == 8 || s.players[1].y == 0
  }

  // ---------------------------------------------------------------------
  // Wall legality

  /** The wall grid alone admits a wall of direction `dir` at (wx, wy): the
      intersection is inside the grid and empty, and no wall of the same
      direction sits next to it along its own axis. */
  predicate CanPlaceWallAt(walls: Walls, wx: int, wy: int, dir: WallDir)
    ensures CanPlaceWallAt(walls, wx, wy, dir) <==>
      && 0 <= wx < 8 && 0 <= wy < 8 && walls[wy][wx] == NoWall
      && (dir == Vertical ==> forall j :: 0 <= j < 8 && (j == wy - 1 || j == wy + 1) ==> walls[j][wx] != Vertical)
      && (dir == Horizontal ==> forall i :: 0 <= i < 8 && (i == wx - 1 || i == wx + 1) ==> walls[wy][i] != Horizontal)
  {
    if wx < 0 || wx >= WALL_GRID_SIZE || wy < 0 || wy >= WALL_GRID_SIZE then false
    else if walls[wy][wx] != NoWall then false
    else if dir == Vertical then
      !(wy > 0 && walls[wy - 1][wx] == Vertical) && !(wy < WALL_GRID_SIZE - 1 && walls[wy + 1][wx] == Vertical)
    else if dir == Horizontal then
      !(wx > 0 && walls[wy][wx - 1] == Horizontal) && !(wx < WALL_GRID_SIZE - 1 && walls[wy][wx + 1] == Horizontal)
    else true
  }

  /** The basic check before a wall is put: not in the placement phase, the
      intersection in range, a wall left in the mover's stock, and the grid
      test above. */
  predicate CanPlaceWallBasic(s: State, wx: int, wy: int, dir: WallDir)
    ensures CanPlaceWallBasic(s, wx, wy, dir) <==>
      !IsPlacementPhase(s) && Current(s).wallsLeft > 0 && CanPlaceWallAt(s.walls, wx, wy, dir)
  {
    if IsPlacementPhase(s) then false
    else if wx < 0 || wx >= WALL_GRID_SIZE || wy < 0 || wy >= WALL_GRID_SIZE then false
    else if Current(s).wallsLeft <= 0 then false
    else if s.walls[wy][wx] != NoWall then false
    else if dir == Vertical then
      !(wy > 0 && s.walls[wy - 1][wx] == Vertical) && !(wy < WALL_GRID_SIZE - 1 && s.walls[wy + 1][wx] == Vertical)
    else if dir == Horizontal then
      !(wx > 0 && s.walls[wy][wx - 1] == Horizontal) && !(wx < WALL_GRID_SIZE - 1 && s.walls[wy][wx + 1] == Horizontal)
    else true
  }

  /** No two walls of the same direction are anchored next to each other
      along their axis, so no two walls overlap. */
  ghost predicate WellSpaced(walls: Walls) {
    && (forall j, i {:trigger walls[j][i], walls[j + 1][i]} ::
          0 <= j < 7 && 0 <= i < 8 && walls[j][i] == Vertical ==> walls[j + 1][i] != Vertical)
    && (forall j, i {:trigger walls[j][i], walls[j][i + 1]} ::
          0 <= j < 8 && 0 <= i < 7 && walls[j][i] == Horizontal ==> walls[j][i + 1] != Horizontal)
  }

  /** A wall the grid test admits keeps the grid well spaced. */
  lemma AdmittedWallKeepsSpacing(walls: Walls, wx: int, wy: int, dir: WallDir)
    requires WellSpaced(walls) && CanPlaceWallAt(walls, wx, wy, dir)
    ensures WellSpaced(PlaceWall(walls, wx, wy, dir))
  {
    var r := PlaceWall(walls, wx, wy, dir);
    forall j, i {:trigger r[j][i], r[j + 1][i]} | 0 <= j < 7 && 0 <= i < 8 && r[j][i] == Vertical
      ensures r[j + 1][i] != Vertical
    {
      if (j == wy || j + 1 == wy) && i == wx {
      } else {
        assert r[j][i] == walls[j][i] && r[j + 1][i] == walls[j + 1][i];
      }
    }
    forall j, i {:trigger r[j][i], r[j][i + 1]} | 0 <= j < 8 && 0 <= i < 7 && r[j][i] == Horizontal
      ensures r[j][i + 1] != Horizontal
    {
      if j == wy && (i == wx || i + 1 == wx) {
      } else {
        assert r[j][i] == walls[j][i] && r[j][i + 1] == walls[j][i + 1];
      }
    }
  }

  /** The grid with the candidate wall put in. */
  function WithWall(s: State, wx: int, wy: int, dir: WallDir): Walls
    requires 0 <= wx < 8 && 0 <= wy < 8
  {
    PlaceWall(s.walls, wx, wy, dir)
  }

  /** The full wall check: the basic check, and both tokens can still reach
      their goal rows once the wall is in. */
  ghost predicate WallPlaceable(s: State, wx: int, wy: int, dir: WallDir)
    requires WellFormed(s)
  {
    && CanPlaceWallBasic(s, wx, wy, dir)
    && ReachesGoal(WithWall(s, wx, wy, dir), GoalRow(0), PosOf(s.players[0]))
    && ReachesGoal(WithWall(s, wx, wy, dir), GoalRow(1), PosOf(s.players[1]))
  }

  /** The full wall check as the game runs it: the basic check, then a
      reachability search for each player on a copy of the state holding
      the wall. The argument is a value and cannot change. */
  method CanPlaceWall(s: State, wx: int, wy: int, dir: WallDir) returns (ok: bool)
    requires WellFormed(s)
    ensures ok == WallPlaceable(s, wx, wy, dir)
  {
    if !CanPlaceWallBasic(s, wx, wy, dir) {
      return false;
    }
    var testState := s.(walls := PlaceWall(s.walls, wx, wy, dir));
    var reach0 := CanReachGoal(testState, 0);
    if !reach0 {
      return false;
    }
    var reach1 := CanReachGoal(testState, 1);
    if !reach1 {
      return false;
    }
    return true;
  }

  // ---------------------------------------------------------------------
  // Changing a game object in place

  /** The state after the token to move goes to (x, y): in the placement
      phase the token is marked placed and the turn passes; otherwise a
      move that wins records the winner and enters edit mode without
      passing the turn, and any other move passes the turn. */
  function AfterMove(s: State, x: int, y: int): State {
    var i := s.currentPlayer;
    var moved := s.(players := s.players[i := s.players[i].(x := x, y := y)]);
    if IsPlacementPhase(s) then SwitchedTurn(moved.(piecePlaced := s.piecePlaced[i := true]))
    else
      var winner := CheckVictory(moved.players);
      if winner.Some? then moved.(winner := winner, mode := Edit)
      else SwitchedTurn(moved)
  }

  method ExecuteMove(state: GameState, x: int, y: int)
    modifies state
    ensures state.View() == AfterMove(old(state.View()), x, y)
  {
    var playerIndex := state.currentPlayer;
    var player := state.players[playerIndex];
    if IsPlacementPhase(state.View()) {
      state.players := state.players[playerIndex := player.(x := x, y := y)];
      state.piecePlaced := state.piecePlaced[playerIndex := true];
      state.SwitchTurn();
      return;
    }
    state.players := state.players[playerIndex := player.(x := x, y := y)];
    var winner := CheckVictory(state.players);
    if winner.Some? {
      state.winner := winner;
      state.mode := Edit;
      return;
    }
    state.SwitchTurn();
  }

  /** A move onto the mover's goal row after the placement phase makes a
      winner and keeps the turn; a move that wins nothing passes it. */
  lemma MoveOutcome(s: State, x: int, y: int)
    requires !IsPlacementPhase(s)
    ensures y == GoalRow(s.currentPlayer) ==>
      && AfterMove(s, x, y).winner.Some?
      && AfterMove(s, x, y).mode == Edit
      && AfterMove(s, x, y).currentPlayer == s.currentPlayer
      && AfterMove(s, x, y).turnNumber == s.turnNumber
    ensures var i := s.currentPlayer;
            CheckVictory(s.players[i := s.players[i].(x := x, y := y)]).None? ==>
              && AfterMove(s, x, y).winner == s.winner
              && AfterMove(s, x, y).currentPlayer != s.currentPlayer
              && AfterMove(s, x, y).turnNumber == s.turnNumber + 1
    ensures PosOf(AfterMove(s, x, y).players[s.currentPlayer]) == Pos(x, y)
    ensures AfterMove(s, x, y).players[1 - s.currentPlayer] == s.players[1 - s.currentPlayer]
  {
  }

  /** The state after a wall goes in: the grid gains it, the mover's stock
      drops by one and the turn passes. */
  method ExecuteWallPlacement(state: GameState, wx: int, wy: int, dir: WallDir)
    requires 0 <= wx < 8 && 0 <= wy < 8
    modifies state
    ensures state.walls == PlaceWall(old(state.walls), wx, wy, dir)
    ensures state.players[old(state.currentPlayer)].wallsLeft == old(Current(state.View()).wallsLeft) - 1
    ensures state.players == old(state.players)[old(state.currentPlayer) := state.players[old(state.currentPlayer)]]
    ensures PosOf(state.players[old(state.currentPlayer)]) == old(PosOf(Current(state.View())))
    ensures state.View() == SwitchedTurn(old(state.View()).(walls := state.walls, players := state.players))
  {
    state.walls := PlaceWall(state.walls, wx, wy, dir);
    var player := state.players[state.currentPlayer];
    state.players := state.players[state.currentPlayer := player.(wallsLeft := player.wallsLeft - 1)];
    state.SwitchTurn();
  }

  // ---------------------------------------------------------------------
  // Moves of the search and their effect on a state value

  /** A move as the search enumerates it. */
  datatype Move = MoveTo(x: int, y: int) | WallAt(wx: int, wy: int, dir: WallDir)

  /** The walls tried at intersection (wx, wy): vertical, then horizontal. */
  function WallDirs(): seq<WallDir> {
    [Vertical, Horizontal]
  }

  /** The admitted walls among the first `d` directions at (wx, wy). */
  ghost function IntersectionWalls(s: State, wx: int, wy: int, d: int): seq<Move>
    requires WellFormed(s) && 0 <= d <= 2
  {
    if d == 0 then []
    else
      IntersectionWalls(s, wx, wy, d - 1)
      + (if WallPlaceable(s, wx, wy, WallDirs()[d - 1]) then [WallAt(wx, wy, WallDirs()[d - 1])] else [])
  }

  /** The admitted walls at the first `n` intersections of row `wy`. */
  ghost function RowWalls(s: State, wy: int, n: int): seq<Move>
    requires WellFormed(s) && 0 <= n <= 8
  {
    if n == 0 then [] else RowWalls(s, wy, n - 1) + IntersectionWalls(s, n - 1, wy, 2)
  }

  /** The admitted walls of the first `m` rows of the wall grid, row by
      row, left to right. */
  ghost function GridWalls(s: State, m: int): seq<Move>
    requires WellFormed(s) && 0 <= m <= 8
  {
    if m == 0 then [] else GridWalls(s, m - 1) + RowWalls(s, m - 1, 8)
  }

  /** The token destinations as search moves. */
  function TokenMoves(vm: seq<CellMove>): seq<Move> {
    seq(|vm|, i requires 0 <= i < |vm| => MoveTo(vm[i].x, vm[i].y))
  }

  /** All legal moves: the token destinations, then, while the mover holds
      a wall, every wall the full check admits. */
  ghost function AllLegalMoves(s: State): seq<Move>
    requires WellFormed(s)
  {
    TokenMoves(ValidMoves(s)) + (if Current(s).wallsLeft > 0 then GridWalls(s, 8) else [])
  }

  method GetAllLegalMoves(s: State) returns (moves: seq<Move>)
    requires WellFormed(s)
    ensures moves == AllLegalMoves(s)
  {
    moves := [];
    var playerIndex := s.currentPlayer;
    var validMoves := GetValidMoves(s);
    for i := 0 to |validMoves|
      invariant moves == TokenMoves(validMoves[..i])
    {
      moves := moves + [MoveTo(validMoves[i].x, validMoves[i].y)];
    }
    assert validMoves[..|validMoves|] == validMoves;
    if s.players[playerIndex].wallsLeft > 0 {
      ghost var prefix := moves;
      for wy := 0 to WALL_GRID_SIZE
        invariant moves == prefix + GridWalls(s, wy)
      {
        var row := RowWallMoves(s, wy);
        moves := moves + row;
      }
    }
  }

  /** The admitted walls of row `wy` of the wall grid, in order. */
  method RowWallMoves(s: State, wy: int) returns (moves: seq<Move>)
    requires WellFormed(s) && 0 <= wy < 8
    ensures moves == RowWalls(s, wy, 8)
  {
    moves := [];
    for wx := 0 to WALL_GRID_SIZE
      invariant moves == RowWalls(s, wy, wx)
    {
      var here := IntersectionWallMoves(s, wx, wy);
      moves := moves + here;
    }
  }

  /** The admitted walls at intersection (wx, wy), in the order of
      `WallDirs()`. */
  method IntersectionWallMoves(s: State, wx: int, wy: int) returns (moves: seq<Move>)
    requires WellFormed(s) && 0 <= wx < 8 && 0 <= wy < 8
    ensures moves == IntersectionWalls(s, wx, wy, 2)
  {
    moves := [];
    var dirs := WallDirs();
    for d := 0 to 2
      invariant moves == IntersectionWalls(s, wx, wy, d)
    {
      var ok := CanPlaceWall(s, wx, wy, dirs[d]);
      if ok {
        moves := moves + [WallAt(wx, wy, dirs[d])];
      }
    }
  }

  /** Every admitted wall is one the basic check admits, inside the grid. */
  lemma {:induction false} IntersectionWallsAdmitted(s: State, wx: int, wy: int, d: int)
    requires WellFormed(s) && 0 <= d <= 2
    ensures forall m :: m in IntersectionWalls(s, wx, wy, d) ==>
      m.WallAt? && m.wx == wx && m.wy == wy && m.dir != NoWall && WallPlaceable(s, m.wx, m.wy, m.dir)
  {
    if d > 0 {
      IntersectionWallsAdmitted(s, wx, wy, d - 1);
    }
  }

  lemma {:induction false} RowWallsAdmitted(s: State, wy: int, n: int)
    requires WellFormed(s) && 0 <= n <= 8
    ensures forall m :: m in RowWalls(s, wy, n) ==>
      m.WallAt? && m.wy == wy && 0 <= m.wx < n && m.dir != NoWall && WallPlaceable(s, m.wx, m.wy, m.dir)
  {
    if n > 0 {
      RowWallsAdmitted(s, wy, n - 1);
      IntersectionWallsAdmitted(s, n - 1, wy, 2);
    }
  }

  lemma {:induction false} GridWallsAdmitted(s: State, rows: int)
    requires WellFormed(s) && 0 <= rows <= 8
    ensures forall m :: m in GridWalls(s, rows) ==>
      m.WallAt? && 0 <= m.wy < rows && 0 <= m.wx < 8 && m.dir != NoWall && WallPlaceable(s, m.wx, m.wy, m.dir)
  {
    if rows > 0 {
      GridWallsAdmitted(s, rows - 1);
      RowWallsAdmitted(s, rows - 1, 8);
      var before, row := GridWalls(s, rows - 1), RowWalls(s, rows - 1, 8);
      assert GridWalls(s, rows) == before + row;
      forall m: Move | m in before + row
        ensures m.WallAt? && 0 <= m.wy < rows && 0 <= m.wx < 8 && m.dir != NoWall && WallPlaceable(s, m.wx, m.wy, m.dir)
      {
        if m !in before {
          assert m in row;
        }
      }
    }
  }

  /** Conversely, every wall the full check admits at (wx, wy) among the
      first `d` directions is listed. */
  lemma {:induction false} IntersectionWallsComplete(s: State, wx: int, wy: int, d: int)
    requires WellFormed(s) && 0 <= d <= 2
    ensures forall i :: 0 <= i < d && WallPlaceable(s, wx, wy, WallDirs()[i]) ==>
      WallAt(wx, wy, WallDirs()[i]) in IntersectionWalls(s, wx, wy, d)
  {
    if d > 0 {
      IntersectionWallsComplete(s, wx, wy, d - 1);
    }
  }

  lemma {:induction false} RowWallsComplete(s: State, wy: int, n: int)
    requires WellFormed(s) && 0 <= n <= 8
    ensures forall wx, dir :: 0 <= wx < n && dir != NoWall && WallPlaceable(s, wx, wy, dir) ==>
      WallAt(wx, wy, dir) in RowWalls(s, wy, n)
  {
    if n > 0 {
      RowWallsComplete(s, wy, n - 1);
      IntersectionWallsComplete(s, n - 1, wy, 2);
      forall wx, dir | 0 <= wx < n && dir != NoWall && WallPlaceable(s, wx, wy, dir)
        ensures WallAt(wx, wy, dir) in RowWalls(s, wy, n)
      {
        if wx == n - 1 {
          assert dir == WallDirs()[0] || dir == WallDirs()[1];
        }
      }
    }
  }

  /** Every wall the full check admits inside the first `rows` rows of the
      grid is listed. */
  lemma {:induction false} GridWallsComplete(s: State, rows: int)
    requires WellFormed(s) && 0 <= rows <= 8
    ensures forall wx, wy, dir :: 0 <= wx < 8 && 0 <= wy < rows && dir != NoWall && WallPlaceable(s, wx, wy, dir) ==>
      WallAt(wx, wy, dir) in GridWalls(s, rows)
  {
    if rows > 0 {
      GridWallsComplete(s, rows - 1);
      RowWallsComplete(s, rows - 1, 8);
    }
  }

  /** A wall is among the legal moves exactly when the mover still holds a
      wall and the full check admits it at an intersection of the grid. */
  lemma LegalWallsListed(s: State, wx: int, wy: int, dir: WallDir)
    requires WellFormed(s)
    ensures WallAt(wx, wy, dir) in AllLegalMoves(s) <==>
      Current(s).wallsLeft > 0 && 0 <= wx < 8 && 0 <= wy < 8 && dir != NoWall && WallPlaceable(s, wx, wy, dir)
  {
    GridWallsAdmitted(s, 8);
    GridWallsComplete(s, 8);
    var tm := TokenMoves(ValidMoves(s));
    assert forall i :: 0 <= i < |tm| ==> tm[i].MoveTo?;
    assert WallAt(wx, wy, dir) !in tm;
  }

  /** The state a move leads to, built on a copy: a token move may record a
      winner; a wall move spends one wall; the turn passes unless there is
      a winner. The turn counter, mode and placement flags are copied
      unchanged. */
  function ApplyMoveToState(s: State, m: Move): (r: State)
    requires m.WallAt? ==> 0 <= m.wx < 8 && 0 <= m.wy < 8
    ensures r.turnNumber == s.turnNumber && r.mode == s.mode
    ensures r.firstPlayer == s.firstPlayer && r.piecePlaced == s.piecePlaced
    ensures r.currentPlayer != s.currentPlayer <==> r.winner.None?
    ensures r.players[1 - s.currentPlayer] == s.players[1 - s.currentPlayer]
    ensures m.MoveTo? ==> && r.walls == s.walls
                          && r.players[s.currentPlayer] == Current(s).(x := m.x, y := m.y)
                          && (r.winner.Some? <==> s.winner.Some? || CheckVictory(r.players).Some?)
    ensures m.WallAt? ==> && r.walls == PlaceWall(s.walls, m.wx, m.wy, m.dir)
                          && r.players[s.currentPlayer] == Current(s).(wallsLeft := Current(s).wallsLeft - 1)
                          && r.winner == s.winner
  {
    var i := s.currentPlayer;
    var t := match m
      case MoveTo(x, y) =>
        var moved := s.(players := s.players[i := s.players[i].(x := x, y := y)]);
        var winner := CheckVictory(moved.players);
        if winner.Some? then moved.(winner := winner) else moved
      case WallAt(wx, wy, dir) =>
        s.(walls := PlaceWall(s.walls, wx, wy, dir),
           players := s.players[i := s.players[i].(wallsLeft := s.players[i].wallsLeft - 1)]);
    if t.winner.None? then t.(currentPlayer := 1 - i) else t
  }

  /** A legal move keeps both tokens on the board. */
  lemma LegalMoveKeepsWellFormed(s: State, m: Move)
    requires WellFormed(s) && m in AllLegalMoves(s)
    ensures m.WallAt? ==> 0 <= m.wx < 8 && 0 <= m.wy < 8
    ensures WellFormed(ApplyMoveToState(s, m))
  {
    var vm := ValidMoves(s);
    GridWallsAdmitted(s, 8);
    if m in TokenMoves(vm) {
      var i :| 0 <= i < |vm| && TokenMoves(vm)[i] == m;
      assert vm[i] in vm;
      if !IsPlacementPhase(s) {
        MovesLandFree(s);
      }
    }
  }
}

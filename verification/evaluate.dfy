/** The static evaluation of a position from one player's side, the score of
    a single candidate wall, and the one-ply best move that tries every legal
    move and keeps the first with the highest evaluation. */
module Evaluation {
  import opened Wrappers
  import opened Geometry
  import opened Distance
  import opened Game
  import opened Board
  import opened Reach
  import opened Locked

  // ---------------------------------------------------------------------
  // Weights

  /** The weights of the evaluation. The wall exponent is a whole number. */
  datatype EvalParams = EvalParams(
    wallValue: real,
    wallPower: nat,
    winScore: real,
    lockedBonus: real,
    lockedPenalty: real,
    myReachBonus: real,
    myPreReachBonus: real,
    opponentReachPenalty: real,
    opponentPreReachPenalty: real,
    goalAdjacentBonus: real)

  /** The default weights. */
  function DefaultEvalParams(): EvalParams {
    EvalParams(0.3, 1, 1000.0, 5.0, 5.0, 50.0, 15.0, 100.0, 30.0, 3.0)
  }

  /** `b` raised to the whole power `e`. */
  function Pow(b: real, e: nat): real {
    if e == 0 then 1.0 else b * Pow(b, e - 1)
  }

  /** Whether no intersection holds a wall: exactly the empty grid. */
  predicate HasNoWalls(walls: Walls)
    ensures HasNoWalls(walls) <==> walls == EmptyWalls()
  {
    var empty := forall wy, wx :: 0 <= wy < 8 && 0 <= wx < 8 ==> walls[wy][wx] == NoWall;
    if empty then
      assert forall wy :: 0 <= wy < 8 ==> walls[wy] == EmptyWalls()[wy];
      true
    else false
  }

  /** The row next to player `i`'s goal row. */
  function AdjacentRow(i: PlayerIndex): int {
    if i == 0 then 7 else 1
  }

  // ---------------------------------------------------------------------
  // The evaluation

  /** The distance of player `j`'s token to its goal row. */
  ghost function DistanceOf(s: State, j: PlayerIndex): int
    requires WellFormed(s)
  {
    Get(DistanceMap(s.walls, GoalRow(j)), PosOf(s.players[j]))
  }

  /** The reach terms: a bonus when the mover is one or two steps from its
      goal row, a penalty when the opponent is. */
  function ReachTerm(myDist: int, oppDist: int, p: EvalParams): real {
    (if myDist == 1 then p.myReachBonus else 0.0)
    + (if myDist == 2 then p.myPreReachBonus else 0.0)
    - (if oppDist == 1 then p.opponentReachPenalty else 0.0)
    - (if oppDist == 2 then p.opponentPreReachPenalty else 0.0)
  }

  /** The lock terms, from the two locked distances (-1 when not locked). */
  function LockTerm(myLocked: int, oppLocked: int, p: EvalParams): real {
    (if myLocked >= 0 then p.lockedBonus else 0.0) - (if oppLocked >= 0 then p.lockedPenalty else 0.0)
  }

  /** The worth of a wall stock. */
  function StockValue(wallsLeft: int, p: EvalParams): real {
    Pow(wallsLeft as real, p.wallPower) * p.wallValue
  }

  /** The goal-adjacency terms, counted only on a board without walls. */
  function AdjacentTerm(walls: Walls, myY: int, oppY: int, i: PlayerIndex, p: EvalParams): real {
    if !HasNoWalls(walls) then 0.0
    else (if myY == AdjacentRow(i) then p.goalAdjacentBonus else 0.0)
         - (if oppY == AdjacentRow(1 - i) then p.goalAdjacentBonus else 0.0)
  }

  /** The score of `s` for player `i`: the win score when `i` stands on its
      goal row, minus it when the opponent does, and otherwise the distance
      difference plus the reach, lock, wall-stock and goal-adjacency terms. */
  ghost function Evaluate(s: State, i: PlayerIndex, useLocked: bool, p: EvalParams): real
    requires WellFormed(s)
  {
    var my, opp := s.players[i], s.players[1 - i];
    var myDist, oppDist := DistanceOf(s, i), DistanceOf(s, 1 - i);
    if myDist == 0 then p.winScore
    else if oppDist == 0 then -p.winScore
    else
      (oppDist - myDist) as real
      + ReachTerm(myDist, oppDist, p)
      + (if useLocked then LockTerm(LockedDistance(s, i), LockedDistance(s, 1 - i), p) else 0.0)
      + (StockValue(my.wallsLeft, p) - StockValue(opp.wallsLeft, p))
      + AdjacentTerm(s.walls, my.y, opp.y, i, p)
  }

  /** The evaluation as the game computes it. */
  method EvaluateState(s: State, i: PlayerIndex, useLocked: bool, p: EvalParams) returns (score: real)
    requires WellFormed(s)
    ensures score == Evaluate(s, i, useLocked, p)
  {
    var my := s.players[i];
    var opp := s.players[1 - i];
    var myMap := GetDistanceMap(s.walls, GoalRow(i));
    var oppMap := GetDistanceMap(s.walls, GoalRow(1 - i));
    var myDist := Get(myMap, PosOf(my));
    var oppDist := Get(oppMap, PosOf(opp));
    if myDist == 0 {
      return p.winScore;
    }
    if oppDist == 0 {
      return -p.winScore;
    }
    score := (oppDist - myDist) as real;
    score := score + ReachTerm(myDist, oppDist, p);
    var locked := 0.0;
    if useLocked {
      var myLocked := GetLockedDistance(s, i);
      var oppLocked := GetLockedDistance(s, 1 - i);
      locked := LockTerm(myLocked, oppLocked, p);
    }
    score := score + locked;
    var myWallScore := StockValue(my.wallsLeft, p);
    var oppWallScore := StockValue(opp.wallsLeft, p);
    score := score + (myWallScore - oppWallScore);
    score := score + AdjacentTerm(s.walls, my.y, opp.y, i, p);
  }

  /** A token on its own goal row scores the win score for its owner; a
      token not yet there, facing an opponent on its goal row, scores minus
      the win score. */
  lemma EvaluateDecided(s: State, i: PlayerIndex, useLocked: bool, p: EvalParams)
    requires WellFormed(s)
    ensures s.players[i].y == GoalRow(i) ==> Evaluate(s, i, useLocked, p) == p.winScore
    ensures s.players[i].y != GoalRow(i) && s.players[1 - i].y == GoalRow(1 - i) ==>
      Evaluate(s, i, useLocked, p) == -p.winScore
  {
    DistanceMapGoalRow(s.walls, GoalRow(i), PosOf(s.players[i]));
    DistanceMapGoalRow(s.walls, GoalRow(1 - i), PosOf(s.players[1 - i]));
  }

  /** Weights that treat both sides alike. */
  predicate Balanced(p: EvalParams) {
    && p.lockedBonus == p.lockedPenalty
    && p.myReachBonus == p.opponentReachPenalty
    && p.myPreReachBonus == p.opponentPreReachPenalty
  }

  /** With balanced weights the evaluation is zero-sum while neither token
      stands on its goal row: one player's score is minus the other's. */
  lemma EvaluateZeroSum(s: State, i: PlayerIndex, useLocked: bool, p: EvalParams)
    requires WellFormed(s) && Balanced(p)
    requires s.players[0].y != GoalRow(0) && s.players[1].y != GoalRow(1)
    ensures Evaluate(s, i, useLocked, p) == -Evaluate(s, 1 - i, useLocked, p)
  {
    DistanceMapGoalRow(s.walls, GoalRow(0), PosOf(s.players[0]));
    DistanceMapGoalRow(s.walls, GoalRow(1), PosOf(s.players[1]));
  }

  /** Turning the lock terms off is the same as giving them zero weight. */
  lemma EvaluateWithoutLocks(s: State, i: PlayerIndex, p: EvalParams)
    requires WellFormed(s)
    ensures Evaluate(s, i, false, p) == Evaluate(s, i, true, p.(lockedBonus := 0.0, lockedPenalty := 0.0))
  {
    var q := p.(lockedBonus := 0.0, lockedPenalty := 0.0);
    assert LockTerm(LockedDistance(s, i), LockedDistance(s, 1 - i), q) == 0.0;
    assert ReachTerm(DistanceOf(s, i), DistanceOf(s, 1 - i), q) == ReachTerm(DistanceOf(s, i), DistanceOf(s, 1 - i), p);
    assert StockValue(s.players[i].wallsLeft, q) == StockValue(s.players[i].wallsLeft, p);
    assert StockValue(s.players[1 - i].wallsLeft, q) == StockValue(s.players[1 - i].wallsLeft, p);
    assert AdjacentTerm(s.walls, s.players[i].y, s.players[1 - i].y, i, q)
        == AdjacentTerm(s.walls, s.players[i].y, s.players[1 - i].y, i, p);
  }

  /** The evaluation reads only the tokens, the wall stocks and the wall
      grid: not the turn, the mode, the winner or the turn counter. */
  lemma EvaluateReadsBoard(s: State, t: State, i: PlayerIndex, useLocked: bool, p: EvalParams)
    requires WellFormed(s) && s.players == t.players && s.walls == t.walls
    ensures WellFormed(t)
    ensures Evaluate(s, i, useLocked, p) == Evaluate(t, i, useLocked, p)
  {
    assert LockedDistance(s, i) == LockedDistance(t, i);
    assert LockedDistance(s, 1 - i) == LockedDistance(t, 1 - i);
  }

  // ---------------------------------------------------------------------
  // The score of one wall

  /** The score of putting a wall at (wx, wy): none when the mover has no
      wall left, the grid refuses it, or it cuts either token off from its
      goal row; otherwise how much it lengthens the opponent's distance
      minus how much it lengthens the mover's. */
  ghost function WallDelta(s: State, wx: int, wy: int, dir: WallDir): Option<int>
    requires WellFormed(s)
  {
    if Current(s).wallsLeft <= 0 then None
    else if !CanPlaceWallAt(s.walls, wx, wy, dir) then None
    else
      var t := s.(walls := PlaceWall(s.walls, wx, wy, dir));
      if DistanceOf(t, 0) == -1 || DistanceOf(t, 1) == -1 then None
      else
        var delta0, delta1 := DistanceOf(t, 0) - DistanceOf(s, 0), DistanceOf(t, 1) - DistanceOf(s, 1);
        Some(if s.currentPlayer == 0 then delta1 - delta0 else delta0 - delta1)
  }

  method EvaluateWallPlacement(s: State, wx: int, wy: int, dir: WallDir) returns (r: Option<int>)
    requires WellFormed(s)
    ensures r == WallDelta(s, wx, wy, dir)
  {
    var currentPlayer := s.players[s.currentPlayer];
    if currentPlayer.wallsLeft <= 0 {
      return None;
    }
    if wx < 0 || wx >= WALL_GRID_SIZE || wy < 0 || wy >= WALL_GRID_SIZE {
      return None;
    }
    if s.walls[wy][wx] != NoWall {
      return None;
    }
    if dir == Vertical {
      if wy > 0 && s.walls[wy - 1][wx] == Vertical { return None; }
      if wy < WALL_GRID_SIZE - 1 && s.walls[wy + 1][wx] == Vertical { return None; }
    } else if dir == Horizontal {
      if wx > 0 && s.walls[wy][wx - 1] == Horizontal { return None; }
      if wx < WALL_GRID_SIZE - 1 && s.walls[wy][wx + 1] == Horizontal { return None; }
    }
    r := DistanceDelta(s, wx, wy, dir);
  }

  /** The distance part of the score of a wall the grid admits. */
  method DistanceDelta(s: State, wx: int, wy: int, dir: WallDir) returns (r: Option<int>)
    requires WellFormed(s) && Current(s).wallsLeft > 0 && CanPlaceWallAt(s.walls, wx, wy, dir)
    ensures r == WallDelta(s, wx, wy, dir)
  {
    var p0 := PosOf(s.players[0]);
    var p1 := PosOf(s.players[1]);
    var map0 := GetDistanceMap(s.walls, 8);
    var map1 := GetDistanceMap(s.walls, 0);
    var dist0Before := Get(map0, p0);
    var dist1Before := Get(map1, p1);
    var testWalls := PlaceWall(s.walls, wx, wy, dir);
    var after0 := GetDistanceMap(testWalls, 8);
    var after1 := GetDistanceMap(testWalls, 0);
    var dist0After := Get(after0, p0);
    var dist1After := Get(after1, p1);
    if dist0After == -1 || dist1After == -1 {
      return None;
    }
    var delta0 := dist0After - dist0Before;
    var delta1 := dist1After - dist1Before;
    if s.currentPlayer == 0 {
      return Some(delta1 - delta0);
    } else {
      return Some(delta0 - delta1);
    }
  }

  /** A wall on an empty intersection never shortens a distance: a cell
      that still reaches the goal row was reachable before, and no further
      away. */
  lemma WallNeverShortens(walls: Walls, wx: int, wy: int, dir: WallDir, goalY: int, p: Pos)
    requires 0 <= wx < 8 && 0 <= wy < 8 && walls[wy][wx] == NoWall
    requires 0 <= goalY < 9 && ValidPos(p)
    ensures var after := Get(DistanceMap(PlaceWall(walls, wx, wy, dir), goalY), p);
      after >= 0 ==> 0 <= Get(DistanceMap(walls, goalY), p) <= after
  {
    var t := PlaceWall(walls, wx, wy, dir);
    if Get(DistanceMap(t, goalY), p) >= 0 {
      var path := WalkFromDistance(t, goalY, p);
      forall i | 0 < i < |path|
        ensures IsStep(walls, path[i - 1], path[i])
      {
        assert IsStep(t, path[i - 1], path[i]);
        var k :| 0 <= k < 4 && path[i] == Neighbor(path[i - 1], k) && OpenStep(t, path[i - 1], path[i]);
        AddedWallKeepsBlocks(walls, wx, wy, dir, path[i - 1].x, path[i - 1].y, path[i].x, path[i].y);
      }
      WalkAtLeastDistance(walls, goalY, p, path);
    }
  }

  /** A wall gets a score exactly when the mover holds a wall, the grid
      admits it and both tokens still reach their goal rows; after the
      placement phase that is the full wall check. */
  lemma WallDeltaAdmits(s: State, wx: int, wy: int, dir: WallDir)
    requires WellFormed(s)
    ensures WallDelta(s, wx, wy, dir).Some? <==>
      && Current(s).wallsLeft > 0 && CanPlaceWallAt(s.walls, wx, wy, dir)
      && ReachesGoal(WithWall(s, wx, wy, dir), GoalRow(0), PosOf(s.players[0]))
      && ReachesGoal(WithWall(s, wx, wy, dir), GoalRow(1), PosOf(s.players[1]))
    ensures !IsPlacementPhase(s) ==> (WallDelta(s, wx, wy, dir).Some? <==> WallPlaceable(s, wx, wy, dir))
  {
    if Current(s).wallsLeft > 0 && CanPlaceWallAt(s.walls, wx, wy, dir) {
      var t := WithWall(s, wx, wy, dir);
      ReachableIffLabelled(t, GoalRow(0), PosOf(s.players[0]));
      ReachableIffLabelled(t, GoalRow(1), PosOf(s.players[1]));
      DistanceMapGoalRow(t, GoalRow(0), PosOf(s.players[0]));
      DistanceMapGoalRow(t, GoalRow(1), PosOf(s.players[1]));
    }
  }

  /** How much the board `t` lengthens player `j`'s distance over `s`. */
  ghost function Gain(s: State, t: State, j: PlayerIndex): int
    requires WellFormed(s) && WellFormed(t)
  {
    DistanceOf(t, j) - DistanceOf(s, j)
  }

  /** A scored wall lengthens neither distance by a negative amount, and
      its score is the opponent's gain minus the mover's; so it is at most
      the opponent's gain and at least minus the mover's. */
  lemma WallDeltaGains(s: State, wx: int, wy: int, dir: WallDir)
    requires WellFormed(s) && WallDelta(s, wx, wy, dir).Some?
    ensures 0 <= wx < 8 && 0 <= wy < 8
    ensures var t := s.(walls := PlaceWall(s.walls, wx, wy, dir));
      var me, them := s.currentPlayer, 1 - s.currentPlayer;
      && Gain(s, t, me) >= 0 && Gain(s, t, them) >= 0
      && WallDelta(s, wx, wy, dir).value == Gain(s, t, them) - Gain(s, t, me)
      && -Gain(s, t, me) <= WallDelta(s, wx, wy, dir).value <= Gain(s, t, them)
  {
    var t := s.(walls := PlaceWall(s.walls, wx, wy, dir));
    DistanceMapGoalRow(t.walls, GoalRow(0), PosOf(s.players[0]));
    DistanceMapGoalRow(t.walls, GoalRow(1), PosOf(s.players[1]));
    WallNeverShortens(s.walls, wx, wy, dir, GoalRow(0), PosOf(s.players[0]));
    WallNeverShortens(s.walls, wx, wy, dir, GoalRow(1), PosOf(s.players[1]));
  }

  // ---------------------------------------------------------------------
  // Every scored wall

  datatype WallEvaluation = WallEvaluation(wx: int, wy: int, dir: WallDir, score: int)

  /** The scored walls among the first `d` directions at (wx, wy). */
  ghost function IntersectionEvals(s: State, wx: int, wy: int, d: int): seq<WallEvaluation>
    requires WellFormed(s) && 0 <= d <= 2
  {
    if d == 0 then []
    else
      var dir := WallDirs()[d - 1];
      var r := WallDelta(s, wx, wy, dir);
      IntersectionEvals(s, wx, wy, d - 1) + (if r.Some? then [WallEvaluation(wx, wy, dir, r.value)] else [])
  }

  /** The scored walls at the first `n` intersections of row `wy`. */
  ghost function RowEvals(s: State, wy: int, n: int): seq<WallEvaluation>
    requires WellFormed(s) && 0 <= n <= 8
  {
    if n == 0 then [] else RowEvals(s, wy, n - 1) + IntersectionEvals(s, n - 1, wy, 2)
  }

  /** The scored walls of the first `m` rows, row by row, left to right,
      vertical before horizontal. */
  ghost function GridEvals(s: State, m: int): seq<WallEvaluation>
    requires WellFormed(s) && 0 <= m <= 8
  {
    if m == 0 then [] else GridEvals(s, m - 1) + RowEvals(s, m - 1, 8)
  }

  /** The entries for one intersection are its scored walls. */
  lemma {:induction false} IntersectionEvalsExact(s: State, wx: int, wy: int, d: int, e: WallEvaluation)
    requires WellFormed(s) && 0 <= d <= 2
    ensures e in IntersectionEvals(s, wx, wy, d) <==>
      e.wx == wx && e.wy == wy && e.dir in WallDirs()[..d] && WallDelta(s, wx, wy, e.dir) == Some(e.score)
  {
    if d > 0 {
      IntersectionEvalsExact(s, wx, wy, d - 1, e);
      assert WallDirs()[..d] == WallDirs()[..d - 1] + [WallDirs()[d - 1]];
    }
  }

  lemma IntersectionEvalsBoth(s: State, wx: int, wy: int, e: WallEvaluation)
    requires WellFormed(s)
    ensures e in IntersectionEvals(s, wx, wy, 2) <==>
      e.wx == wx && e.wy == wy && e.dir in WallDirs() && WallDelta(s, wx, wy, e.dir) == Some(e.score)
  {
    IntersectionEvalsExact(s, wx, wy, 2, e);
    assert WallDirs()[..2] == WallDirs();
  }

  lemma {:induction false} RowEvalsExact(s: State, wy: int, n: int, e: WallEvaluation)
    requires WellFormed(s) && 0 <= n <= 8
    ensures e in RowEvals(s, wy, n) <==>
      0 <= e.wx < n && e.wy == wy && e.dir in WallDirs() && WallDelta(s, e.wx, wy, e.dir) == Some(e.score)
  {
    if n > 0 {
      RowEvalsExact(s, wy, n - 1, e);
      IntersectionEvalsBoth(s, n - 1, wy, e);
    }
  }

  lemma {:induction false} GridEvalsExact(s: State, m: int, e: WallEvaluation)
    requires WellFormed(s) && 0 <= m <= 8
    ensures e in GridEvals(s, m) <==>
      0 <= e.wx < 8 && 0 <= e.wy < m && e.dir in WallDirs() && WallDelta(s, e.wx, e.wy, e.dir) == Some(e.score)
  {
    if m > 0 {
      GridEvalsExact(s, m - 1, e);
      RowEvalsExact(s, m - 1, 8, e);
    }
  }

  /** Every wall the grid offers, with its score, skipping those that get
      none. */
  method GetAllWallEvaluations(s: State) returns (evaluations: seq<WallEvaluation>)
    requires WellFormed(s)
    ensures evaluations == GridEvals(s, 8)
    ensures forall e :: e in evaluations <==>
      0 <= e.wx < 8 && 0 <= e.wy < 8 && e.dir in WallDirs() && WallDelta(s, e.wx, e.wy, e.dir) == Some(e.score)
  {
    evaluations := [];
    for wy := 0 to WALL_GRID_SIZE
      invariant evaluations == GridEvals(s, wy)
    {
      var row := RowEvaluations(s, wy);
      evaluations := evaluations + row;
    }
    forall e
      ensures e in evaluations <==>
        0 <= e.wx < 8 && 0 <= e.wy < 8 && e.dir in WallDirs() && WallDelta(s, e.wx, e.wy, e.dir) == Some(e.score)
    {
      GridEvalsExact(s, 8, e);
    }
  }

  /** The scored walls of row `wy`, left to right. */
  method RowEvaluations(s: State, wy: int) returns (row: seq<WallEvaluation>)
    requires WellFormed(s) && 0 <= wy < 8
    ensures row == RowEvals(s, wy, 8)
  {
    row := [];
    for wx := 0 to WALL_GRID_SIZE
      invariant row == RowEvals(s, wy, wx)
    {
      var here := IntersectionEvaluations(s, wx, wy);
      row := row + here;
    }
  }

  /** The scored walls at (wx, wy): the vertical one, then the horizontal. */
  method IntersectionEvaluations(s: State, wx: int, wy: int) returns (here: seq<WallEvaluation>)
    requires WellFormed(s) && 0 <= wx < 8 && 0 <= wy < 8
    ensures here == IntersectionEvals(s, wx, wy, 2)
  {
    here := [];
    var scoreV := EvaluateWallPlacement(s, wx, wy, Vertical);
    if scoreV.Some? {
      here := here + [WallEvaluation(wx, wy, Vertical, scoreV.value)];
    }
    var scoreH := EvaluateWallPlacement(s, wx, wy, Horizontal);
    if scoreH.Some? {
      here := here + [WallEvaluation(wx, wy, Horizontal, scoreH.value)];
    }
    assert IntersectionEvals(s, wx, wy, 1)
      == (if scoreV.Some? then [WallEvaluation(wx, wy, Vertical, scoreV.value)] else []);
  }

  // ---------------------------------------------------------------------
  // The one-ply best move

  /** A candidate whose tentative state can be scored: its wall is inside
      the grid, or its destination is on the board. */
  predicate Scorable(s: State, m: Move) {
    && WellFormed(s)
    && (m.WallAt? ==> 0 <= m.wx < 8 && 0 <= m.wy < 8)
    && (m.MoveTo? ==> ValidCell(m.x, m.y))
  }

  /** The state a candidate is scored on: the mover's token moved, or the
      wall put in and one wall spent. The turn does not pass and no winner
      is recorded. */
  function Tentative(s: State, m: Move): (t: State)
    requires m.WallAt? ==> 0 <= m.wx < 8 && 0 <= m.wy < 8
    ensures Scorable(s, m) ==> WellFormed(t)
  {
    var i := s.currentPlayer;
    match m
    case MoveTo(x, y) => s.(players := s.players[i := s.players[i].(x := x, y := y)])
    case WallAt(wx, wy, dir) =>
      s.(walls := PlaceWall(s.walls, wx, wy, dir),
         players := s.players[i := s.players[i].(wallsLeft := s.players[i].wallsLeft - 1)])
  }

  /** The tentative state differs from the state the move leads to only in
      the turn and the winner, which the evaluation does not read. */
  lemma TentativeMatchesApply(s: State, m: Move, i: PlayerIndex, useLocked: bool, p: EvalParams)
    requires Scorable(s, m)
    ensures Tentative(s, m).players == ApplyMoveToState(s, m).players
    ensures Tentative(s, m).walls == ApplyMoveToState(s, m).walls
    ensures Evaluate(Tentative(s, m), i, useLocked, p) == Evaluate(ApplyMoveToState(s, m), i, useLocked, p)
  {
    var t, a := Tentative(s, m), ApplyMoveToState(s, m);
    assert t.players == a.players && t.walls == a.walls;
    EvaluateReadsBoard(t, a, i, useLocked, p);
  }

  /** The evaluation of a candidate for the mover, with the default weights
      and the lock terms on. */
  ghost function MoveScore(s: State, m: Move): real
    requires Scorable(s, m)
  {
    Evaluate(Tentative(s, m), s.currentPlayer, true, DefaultEvalParams())
  }

  /** Every candidate can be scored from `s`. */
  ghost predicate AllScorable(s: State, cands: seq<Move>) {
    forall k :: 0 <= k < |cands| ==> Scorable(s, cands[k])
  }

  /** The scores of the candidates, in order. */
  ghost function MoveScores(s: State, cands: seq<Move>): (scores: seq<real>)
    requires AllScorable(s, cands)
    ensures |scores| == |cands|
  {
    seq(|cands|, k requires 0 <= k < |cands| => MoveScore(s, cands[k]))
  }

  lemma MoveScoresAppend(s: State, cands: seq<Move>, m: Move)
    requires AllScorable(s, cands) && Scorable(s, m)
    ensures AllScorable(s, cands + [m])
    ensures MoveScores(s, cands + [m]) == MoveScores(s, cands) + [MoveScore(s, m)]
  {
    var c := cands + [m];
    assert forall k :: 0 <= k < |cands| ==> c[k] == cands[k];
  }

  lemma AppendAssoc(a: seq<Move>, b: seq<Move>, c: seq<Move>)
    ensures a + (b + c) == a + b + c
  {
  }

  /** `best` is the first candidate of highest score, with that score, or
      none when there is no candidate. */
  predicate FirstBest(cands: seq<Move>, scores: seq<real>, best: Option<(Move, real)>)
    requires |scores| == |cands|
  {
    && (best.None? <==> |cands| == 0)
    && (best.Some? ==>
          exists k :: 0 <= k < |cands| && cands[k] == best.value.0 && scores[k] == best.value.1
            && (forall j :: 0 <= j < k ==> scores[j] < best.value.1)
            && (forall j :: 0 <= j < |cands| ==> scores[j] <= best.value.1))
  }

  /** The best so far after one more candidate: replaced only on a strictly
      higher score. */
  lemma FirstBestStep(cands: seq<Move>, scores: seq<real>, best: Option<(Move, real)>, m: Move, x: real)
    requires |scores| == |cands| && FirstBest(cands, scores, best)
    ensures FirstBest(cands + [m], scores + [x], if best.None? || x > best.value.1 then Some((m, x)) else best)
  {
    var c, sc := cands + [m], scores + [x];
    assert forall j :: 0 <= j < |cands| ==> c[j] == cands[j] && sc[j] == scores[j];
    if best.None? || x > best.value.1 {
      assert c[|cands|] == m && sc[|cands|] == x;
    } else {
      var k :| 0 <= k < |cands| && cands[k] == best.value.0 && scores[k] == best.value.1
        && (forall j :: 0 <= j < k ==> scores[j] < best.value.1)
        && (forall j :: 0 <= j < |cands| ==> scores[j] <= best.value.1);
      assert c[k] == cands[k] && sc[k] == scores[k];
    }
  }

  /** The first best among the candidates of `s`. */
  ghost predicate BestOfState(s: State, cands: seq<Move>, best: Option<(Move, real)>) {
    AllScorable(s, cands) && FirstBest(cands, MoveScores(s, cands), best)
  }

  /** One more candidate, scored `x`, added to those of `s`. */
  lemma BestOfStateStep(s: State, cands: seq<Move>, best: Option<(Move, real)>, m: Move, x: real)
    requires BestOfState(s, cands, best) && Scorable(s, m) && x == MoveScore(s, m)
    ensures BestOfState(s, cands + [m], if best.None? || x > best.value.1 then Some((m, x)) else best)
  {
    MoveScoresAppend(s, cands, m);
    FirstBestStep(cands, MoveScores(s, cands), best, m, x);
  }

  /** A candidate scored: the tentative state evaluated for the mover. */
  method ScoreCandidate(s: State, m: Move) returns (score: real)
    requires Scorable(s, m)
    ensures score == MoveScore(s, m)
  {
    score := EvaluateState(Tentative(s, m), s.currentPlayer, true, DefaultEvalParams());
  }

  /** One candidate scored and kept when it beats the best so far. */
  method AddCandidate(s: State, ghost seen: seq<Move>, best0: Option<(Move, real)>, m: Move)
    returns (best: Option<(Move, real)>)
    requires BestOfState(s, seen, best0) && Scorable(s, m)
    ensures BestOfState(s, seen + [m], best)
  {
    var score := ScoreCandidate(s, m);
    BestOfStateStep(s, seen, best0, m, score);
    best := best0;
    if best.None? || score > best.value.1 {
      best := Some((m, score));
    }
  }

  /** Tries every token destination, then, while the mover holds a wall,
      every wall the full check admits, and keeps the first candidate of
      highest evaluation; none when there is no legal move. */
  method GetBestMove(s: State) returns (best: Option<(Move, real)>)
    requires WellFormed(s)
    ensures BestOfState(s, AllLegalMoves(s), best)
  {
    ghost var seen;
    best, seen := BestTokenMove(s);
    if s.players[s.currentPlayer].wallsLeft > 0 {
      best := BestWallMove(s, seen, best);
      assert seen + GridWalls(s, 8) == AllLegalMoves(s);
    } else {
      assert seen == AllLegalMoves(s);
    }
  }

  /** The token destinations, in the order the move generator lists them. */
  method BestTokenMove(s: State) returns (best: Option<(Move, real)>, ghost seen: seq<Move>)
    requires WellFormed(s)
    ensures seen == TokenMoves(ValidMoves(s))
    ensures BestOfState(s, seen, best)
  {
    best := None;
    var moves := GetValidMoves(s);
    TokenMovesScorable(s);
    seen := [];
    for k := 0 to |moves|
      invariant seen == TokenMoves(moves[..k])
      invariant BestOfState(s, seen, best)
    {
      var m := MoveTo(moves[k].x, moves[k].y);
      assert m == TokenMoves(moves)[k];
      best := AddCandidate(s, seen, best, m);
      TokenMovesGrow(moves, k);
      seen := seen + [m];
    }
    assert moves[..|moves|] == moves;
  }

  lemma TokenMovesGrow(moves: seq<CellMove>, k: int)
    requires 0 <= k < |moves|
    ensures TokenMoves(moves[..k + 1]) == TokenMoves(moves[..k]) + [MoveTo(moves[k].x, moves[k].y)]
  {
  }

  /** Every token destination lies on the board, so it can be scored. */
  lemma TokenMovesScorable(s: State)
    requires WellFormed(s)
    ensures AllScorable(s, TokenMoves(ValidMoves(s)))
  {
    var vm := ValidMoves(s);
    if IsPlacementPhase(s) {
      PlacementOffersStartRow(s);
    } else {
      MovesLandFree(s);
    }
    forall k | 0 <= k < |vm|
      ensures Scorable(s, TokenMoves(vm)[k])
    {
      assert vm[k] in vm;
    }
  }

  /** Every admitted wall, row by row, added to the candidates `seen`. */
  method BestWallMove(s: State, ghost seen: seq<Move>, best0: Option<(Move, real)>)
    returns (best: Option<(Move, real)>)
    requires WellFormed(s) && BestOfState(s, seen, best0)
    ensures BestOfState(s, seen + GridWalls(s, 8), best)
  {
    best := best0;
    assert seen + GridWalls(s, 0) == seen;
    for wy := 0 to WALL_GRID_SIZE
      invariant BestOfState(s, seen + GridWalls(s, wy), best)
    {
      best := BestInRow(s, wy, seen + GridWalls(s, wy), best);
      AppendAssoc(seen, GridWalls(s, wy), RowWalls(s, wy, 8));
    }
  }

  /** The walls of row `wy`, in order, added to the candidates `seen`. */
  method BestInRow(s: State, wy: int, ghost seen: seq<Move>, best0: Option<(Move, real)>)
    returns (best: Option<(Move, real)>)
    requires WellFormed(s) && 0 <= wy < 8 && BestOfState(s, seen, best0)
    ensures BestOfState(s, seen + RowWalls(s, wy, 8), best)
  {
    best := best0;
    assert seen + RowWalls(s, wy, 0) == seen;
    for wx := 0 to WALL_GRID_SIZE
      invariant BestOfState(s, seen + RowWalls(s, wy, wx), best)
    {
      best := BestAtIntersection(s, wx, wy, seen + RowWalls(s, wy, wx), best);
      AppendAssoc(seen, RowWalls(s, wy, wx), IntersectionWalls(s, wx, wy, 2));
    }
  }

  /** The vertical, then the horizontal wall at (wx, wy), when the full
      check admits it, added to the candidates `seen`. */
  method BestAtIntersection(s: State, wx: int, wy: int, ghost seen: seq<Move>, best0: Option<(Move, real)>)
    returns (best: Option<(Move, real)>)
    requires WellFormed(s) && 0 <= wx < 8 && 0 <= wy < 8 && BestOfState(s, seen, best0)
    ensures BestOfState(s, seen + IntersectionWalls(s, wx, wy, 2), best)
  {
    best := best0;
    var dirs := WallDirs();
    assert seen + IntersectionWalls(s, wx, wy, 0) == seen;
    for d := 0 to 2
      invariant BestOfState(s, seen + IntersectionWalls(s, wx, wy, d), best)
    {
      var ok := CanPlaceWall(s, wx, wy, dirs[d]);
      if ok {
        var m := WallAt(wx, wy, dirs[d]);
        best := AddCandidate(s, seen + IntersectionWalls(s, wx, wy, d), best, m);
        AppendAssoc(seen, IntersectionWalls(s, wx, wy, d), [m]);
      } else {
        assert seen + IntersectionWalls(s, wx, wy, d + 1) == seen + IntersectionWalls(s, wx, wy, d);
      }
    }
  }
}

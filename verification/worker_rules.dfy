/** The search worker's own copy of the rules. It sees only the tokens, the
    wall grid, the turn and the winner of a state, so it knows nothing of
    the placement phase; its evaluation has no lock and no goal-adjacency
    terms; and it orders the moves of a node by a cheap heuristic before
    searching them. */
module WorkerRules {
  import opened Wrappers
  import opened Geometry
  import opened Distance
  import opened Game
  import opened Board
  import opened Reach
  import opened Evaluation

  // ---------------------------------------------------------------------
  // Token moves

  /** The destinations the worker offers the token to move: the four
      directions with jumps and side steps, and never a placement. */
  function WorkerValidMoves(s: State): (moves: seq<CellMove>)
    ensures forall m :: m in moves ==> LandsFree(m, PosOf(Current(s)), PosOf(Opponent(s)))
  {
    MovesUpToLandFree(s.walls, PosOf(Current(s)), PosOf(Opponent(s)), 4);
    MovesUpTo(s.walls, PosOf(Current(s)), PosOf(Opponent(s)), 4)
  }

  method WorkerGetValidMoves(s: State) returns (moves: seq<CellMove>)
    requires WellFormed(s)
    ensures moves == WorkerValidMoves(s)
  {
    var player := Current(s);
    var opponent := Opponent(s);
    moves := [];
    for k := 0 to 4
      invariant moves == MovesUpTo(s.walls, PosOf(player), PosOf(opponent), k)
    {
      var dirMoves := GetDirectionMoves(s.walls, PosOf(player), PosOf(opponent), k);
      moves := moves + dirMoves;
    }
  }

  /** After the placement phase the worker offers exactly what the game
      offers. */
  lemma WorkerValidMovesMatch(s: State)
    requires WellFormed(s) && !IsPlacementPhase(s)
    ensures WorkerValidMoves(s) == ValidMoves(s)
  {
  }

  // ---------------------------------------------------------------------
  // Wall legality

  /** The worker's basic wall check, in its own order: the intersection in
      range, a wall in the mover's stock, then the grid. It does not look at
      the placement phase. */
  predicate WorkerCanPlaceWallBasic(s: State, wx: int, wy: int, dir: WallDir)
    ensures WorkerCanPlaceWallBasic(s, wx, wy, dir) <==>
      Current(s).wallsLeft > 0 && CanPlaceWallAt(s.walls, wx, wy, dir)
  {
    if wx < 0 || wx >= WALL_GRID_SIZE || wy < 0 || wy >= WALL_GRID_SIZE then false
    else if Current(s).wallsLeft <= 0 then false
    else if s.walls[wy][wx] != NoWall then false
    else if dir == Vertical then
      !(wy > 0 && s.walls[wy - 1][wx] == Vertical) && !(wy < WALL_GRID_SIZE - 1 && s.walls[wy + 1][wx] == Vertical)
    else if dir == Horizontal then
      !(wx > 0 && s.walls[wy][wx - 1] == Horizontal) && !(wx < WALL_GRID_SIZE - 1 && s.walls[wy][wx + 1] == Horizontal)
    else true
  }

  /** The two basic checks differ only in the placement phase, where the
      game refuses every wall. */
  lemma WorkerBasicMatch(s: State, wx: int, wy: int, dir: WallDir)
    ensures CanPlaceWallBasic(s, wx, wy, dir) <==> !IsPlacementPhase(s) && WorkerCanPlaceWallBasic(s, wx, wy, dir)
  {
  }

  /** The worker's full wall check: its basic check, and both tokens still
      reach their goal rows with the wall in. */
  ghost predicate WorkerWallPlaceable(s: State, wx: int, wy: int, dir: WallDir)
    requires WellFormed(s)
  {
    && WorkerCanPlaceWallBasic(s, wx, wy, dir)
    && ReachesGoal(WithWall(s, wx, wy, dir), GoalRow(0), PosOf(s.players[0]))
    && ReachesGoal(WithWall(s, wx, wy, dir), GoalRow(1), PosOf(s.players[1]))
  }

  method WorkerCanPlaceWall(s: State, wx: int, wy: int, dir: WallDir) returns (ok: bool)
    requires WellFormed(s)
    ensures ok == WorkerWallPlaceable(s, wx, wy, dir)
  {
    if !WorkerCanPlaceWallBasic(s, wx, wy, dir) {
      return false;
    }
    var testState := s.(walls := PlaceWall(s.walls, wx, wy, dir));
    var reach0 := CanReachGoal(testState, 0);
    if !reach0 {
      return false;
    }
    var reach1 := CanReachGoal(testState, 1);
    if !reach1 {
      return false;
    }
    return true;
  }

  /** A wall the worker admits is one the grid admits, for a mover holding
      a wall; after the placement phase the two full checks agree. */
  lemma WorkerWallMatch(s: State, wx: int, wy: int, dir: WallDir)
    requires WellFormed(s)
    ensures WorkerWallPlaceable(s, wx, wy, dir) ==> 0 <= wx < 8 && 0 <= wy < 8 && Current(s).wallsLeft > 0
    ensures !IsPlacementPhase(s) ==> (WorkerWallPlaceable(s, wx, wy, dir) <==> WallPlaceable(s, wx, wy, dir))
  {
    WorkerBasicMatch(s, wx, wy, dir);
  }

  // ---------------------------------------------------------------------
  // The moves of a node

  /** The admitted walls among the first `d` directions at (wx, wy). */
  ghost function WorkerIntersectionWalls(s: State, wx: int, wy: int, d: int): seq<Move>
    requires WellFormed(s) && 0 <= d <= 2
  {
    if d == 0 then []
    else
      WorkerIntersectionWalls(s, wx, wy, d - 1)
      + (if WorkerWallPlaceable(s, wx, wy, WallDirs()[d - 1]) then [WallAt(wx, wy, WallDirs()[d - 1])] else [])
  }

  /** The admitted walls at the first `n` intersections of row `wy`. */
  ghost function WorkerRowWalls(s: State, wy: int, n: int): seq<Move>
    requires WellFormed(s) && 0 <= n <= 8
  {
    if n == 0 then [] else WorkerRowWalls(s, wy, n - 1) + WorkerIntersectionWalls(s, n - 1, wy, 2)
  }

  /** The admitted walls of the first `m` rows, row by row, left to right. */
  ghost function WorkerGridWalls(s: State, m: int): seq<Move>
    requires WellFormed(s) && 0 <= m <= 8
  {
    if m == 0 then [] else WorkerGridWalls(s, m - 1) + WorkerRowWalls(s, m - 1, 8)
  }

  /** The worker's legal moves: its token destinations, then, while the
      mover holds a wall, every wall it admits. */
  ghost function WorkerLegalMoves(s: State): seq<Move>
    requires WellFormed(s)
  {
    TokenMoves(WorkerValidMoves(s)) + (if Current(s).wallsLeft > 0 then WorkerGridWalls(s, 8) else [])
  }

  method WorkerGetAllLegalMoves(s: State) returns (moves: seq<Move>)
    requires WellFormed(s)
    ensures moves == WorkerLegalMoves(s)
  {
    moves := [];
    var playerIndex := s.currentPlayer;
    var validMoves := WorkerGetValidMoves(s);
    for i := 0 to |validMoves|
      invariant moves == TokenMoves(validMoves[..i])
    {
      moves := moves + [MoveTo(validMoves[i].x, validMoves[i].y)];
    }
    assert validMoves[..|validMoves|] == validMoves;
    if s.players[playerIndex].wallsLeft > 0 {
      ghost var prefix := moves;
      for wy := 0 to WALL_GRID_SIZE
        invariant moves == prefix + WorkerGridWalls(s, wy)
      {
        var row := WorkerRowWallMoves(s, wy);
        moves := moves + row;
      }
    }
  }

  method WorkerRowWallMoves(s: State, wy: int) returns (moves: seq<Move>)
    requires WellFormed(s) && 0 <= wy < 8
    ensures moves == WorkerRowWalls(s, wy, 8)
  {
    moves := [];
    for wx := 0 to WALL_GRID_SIZE
      invariant moves == WorkerRowWalls(s, wy, wx)
    {
      var here := WorkerIntersectionWallMoves(s, wx, wy);
      moves := moves + here;
    }
  }

  method WorkerIntersectionWallMoves(s: State, wx: int, wy: int) returns (moves: seq<Move>)
    requires WellFormed(s) && 0 <= wx < 8 && 0 <= wy < 8
    ensures moves == WorkerIntersectionWalls(s, wx, wy, 2)
  {
    moves := [];
    var dirs := WallDirs();
    for d := 0 to 2
      invariant moves == WorkerIntersectionWalls(s, wx, wy, d)
    {
      var ok := WorkerCanPlaceWall(s, wx, wy, dirs[d]);
      if ok {
        moves := moves + [WallAt(wx, wy, dirs[d])];
      }
    }
  }

  /** Every wall the worker lists at (wx, wy) is one it admits there; after
      the placement phase the list is the game's. */
  lemma {:induction false} WorkerIntersectionWallsMatch(s: State, wx: int, wy: int, d: int)
    requires WellFormed(s) && 0 <= d <= 2
    ensures forall m :: m in WorkerIntersectionWalls(s, wx, wy, d) ==>
      m.WallAt? && m.wx == wx && m.wy == wy && WorkerWallPlaceable(s, m.wx, m.wy, m.dir)
    ensures !IsPlacementPhase(s) ==> WorkerIntersectionWalls(s, wx, wy, d) == IntersectionWalls(s, wx, wy, d)
  {
    if d > 0 {
      WorkerIntersectionWallsMatch(s, wx, wy, d - 1);
      WorkerWallMatch(s, wx, wy, WallDirs()[d - 1]);
    }
  }

  lemma {:induction false} WorkerRowWallsMatch(s: State, wy: int, n: int)
    requires WellFormed(s) && 0 <= n <= 8
    ensures forall m :: m in WorkerRowWalls(s, wy, n) ==>
      m.WallAt? && m.wy == wy && 0 <= m.wx < n && WorkerWallPlaceable(s, m.wx, m.wy, m.dir)
    ensures !IsPlacementPhase(s) ==> WorkerRowWalls(s, wy, n) == RowWalls(s, wy, n)
  {
    if n > 0 {
      WorkerRowWallsMatch(s, wy, n - 1);
      WorkerIntersectionWallsMatch(s, n - 1, wy, 2);
    }
  }

  lemma {:induction false} WorkerGridWallsMatch(s: State, rows: int)
    requires WellFormed(s) && 0 <= rows <= 8
    ensures forall m :: m in WorkerGridWalls(s, rows) ==>
      m.WallAt? && 0 <= m.wy < rows && 0 <= m.wx < 8 && WorkerWallPlaceable(s, m.wx, m.wy, m.dir)
    ensures !IsPlacementPhase(s) ==> WorkerGridWalls(s, rows) == GridWalls(s, rows)
  {
    if rows > 0 {
      WorkerGridWallsMatch(s, rows - 1);
      WorkerRowWallsMatch(s, rows - 1, 8);
    }
  }

  /** After the placement phase the worker's move list is the game's, in
      the same order. */
  lemma WorkerLegalMovesMatch(s: State)
    requires WellFormed(s) && !IsPlacementPhase(s)
    ensures WorkerLegalMoves(s) == AllLegalMoves(s)
  {
    WorkerValidMovesMatch(s);
    WorkerGridWallsMatch(s, 8);
  }

  /** A move the worker lists is a token move to a free cell on the board,
      or a wall inside the grid that it admits; either keeps both tokens on
      the board. */
  lemma WorkerLegalMoveKeepsWellFormed(s: State, m: Move)
    requires WellFormed(s) && m in WorkerLegalMoves(s)
    ensures m.MoveTo? ==> ValidCell(m.x, m.y)
    ensures m.WallAt? ==> 0 <= m.wx < 8 && 0 <= m.wy < 8 && WorkerWallPlaceable(s, m.wx, m.wy, m.dir)
    ensures WellFormed(ApplyMoveToState(s, m))
  {
    var vm := WorkerValidMoves(s);
    WorkerGridWallsMatch(s, 8);
    if m in TokenMoves(vm) {
      var i :| 0 <= i < |vm| && TokenMoves(vm)[i] == m;
      assert vm[i] in vm;
    }
  }

  // ---------------------------------------------------------------------
  // The worker's evaluation

  /** The worker's score of `s` for player `i`: the win score when `i`
      stands on its goal row, minus it when the opponent does, and otherwise
      the distance difference plus the reach and wall-stock terms. */
  ghost function WorkerEvaluate(s: State, i: PlayerIndex, p: EvalParams): real
    requires WellFormed(s)
  {
    var my, opp := s.players[i], s.players[1 - i];
    var myDist, oppDist := DistanceOf(s, i), DistanceOf(s, 1 - i);
    if myDist == 0 then p.winScore
    else if oppDist == 0 then -p.winScore
    else
      (oppDist - myDist) as real
      + ReachTerm(myDist, oppDist, p)
      + (StockValue(my.wallsLeft, p) - StockValue(opp.wallsLeft, p))
  }

  method WorkerEvaluateState(s: State, i: PlayerIndex, p: EvalParams) returns (score: real)
    requires WellFormed(s)
    ensures score == WorkerEvaluate(s, i, p)
  {
    var my := s.players[i];
    var opp := s.players[1 - i];
    var myMap := GetDistanceMap(s.walls, GoalRow(i));
    var oppMap := GetDistanceMap(s.walls, GoalRow(1 - i));
    var myDist := Get(myMap, PosOf(my));
    var oppDist := Get(oppMap, PosOf(opp));
    if myDist == 0 {
      return p.winScore;
    }
    if oppDist == 0 {
      return -p.winScore;
    }
    score := (oppDist - myDist) as real;
    score := score + ReachTerm(myDist, oppDist, p);
    var myWallScore := StockValue(my.wallsLeft, p);
    var oppWallScore := StockValue(opp.wallsLeft, p);
    score := score + (myWallScore - oppWallScore);
  }

  /** The worker's evaluation is the game's without the lock terms and with
      no goal-adjacency bonus; on a board holding a wall it is the game's
      without the lock terms. */
  lemma WorkerEvaluateMatch(s: State, i: PlayerIndex, p: EvalParams)
    requires WellFormed(s)
    ensures WorkerEvaluate(s, i, p) == Evaluate(s, i, false, p.(goalAdjacentBonus := 0.0))
    ensures !HasNoWalls(s.walls) ==> WorkerEvaluate(s, i, p) == Evaluate(s, i, false, p)
  {
    var q := p.(goalAdjacentBonus := 0.0);
    assert AdjacentTerm(s.walls, s.players[i].y, s.players[1 - i].y, i, q) == 0.0;
    assert ReachTerm(DistanceOf(s, i), DistanceOf(s, 1 - i), q) == ReachTerm(DistanceOf(s, i), DistanceOf(s, 1 - i), p);
    assert StockValue(s.players[i].wallsLeft, q) == StockValue(s.players[i].wallsLeft, p);
    assert StockValue(s.players[1 - i].wallsLeft, q) == StockValue(s.players[1 - i].wallsLeft, p);
  }

  /** The decided positions score as in the game: the win score for a
      token on its goal row, minus it when only the opponent's is. */
  lemma WorkerEvaluateDecided(s: State, i: PlayerIndex, p: EvalParams)
    requires WellFormed(s)
    ensures s.players[i].y == GoalRow(i) ==> WorkerEvaluate(s, i, p) == p.winScore
    ensures s.players[i].y != GoalRow(i) && s.players[1 - i].y == GoalRow(1 - i) ==>
      WorkerEvaluate(s, i, p) == -p.winScore
  {
    DistanceMapGoalRow(s.walls, GoalRow(i), PosOf(s.players[i]));
    DistanceMapGoalRow(s.walls, GoalRow(1 - i), PosOf(s.players[1 - i]));
  }

  // ---------------------------------------------------------------------
  // Move ordering

  /** A move the ordering can score: a wall anywhere, a token move onto the
      board. */
  predicate Orderable(m: Move) {
    m.MoveTo? ==> ValidCell(m.x, m.y)
  }

  /** `v` held between 0 and 500. */
  function Clamp(v: int): (r: int)
    ensures 0 <= r <= 500
    ensures 0 <= v <= 500 ==> r == v
    ensures v < 0 ==> r == 0
    ensures v > 500 ==> r == 500
  {
    var capped := if v < 500 then v else 500;
    if capped > 0 then capped else 0
  }

  /** The ordering score of a move for the mover: 10000 for a step onto its
      goal row; for another step, 1000 plus 100 per cell it gains, 500 when
      it keeps the distance and 100 when it loses ground; for a wall, its
      score times 50 around 250, held between 0 and 500, or 0 when it gets
      no score. */
  ghost function OrderScore(s: State, m: Move): int
    requires WellFormed(s) && Orderable(m)
  {
    var goalY := GoalRow(s.currentPlayer);
    var dm := DistanceMap(s.walls, goalY);
    match m
    case MoveTo(x, y) =>
      var currentDist, newDist := Get(dm, PosOf(Current(s))), Get(dm, Pos(x, y));
      if y == goalY then 10000
      else if newDist < currentDist then 1000 + (currentDist - newDist) * 100
      else if newDist == currentDist then 500
      else 100
    case WallAt(wx, wy, dir) =>
      var ws := WallDelta(s, wx, wy, dir);
      if ws.Some? then Clamp(250 + ws.value * 50) else 0
  }

  /** Steps onto the goal row and steps that gain ground score above 500;
      walls score at most 500. */
  lemma OrderScoreBands(s: State, m: Move)
    requires WellFormed(s) && Orderable(m)
    ensures m.WallAt? ==> 0 <= OrderScore(s, m) <= 500
    ensures m.MoveTo? ==> OrderScore(s, m) >= 100
    ensures m.MoveTo? && m.y == GoalRow(s.currentPlayer) ==> OrderScore(s, m) == 10000
    ensures m.MoveTo? ==> var dm := DistanceMap(s.walls, GoalRow(s.currentPlayer));
      Get(dm, Pos(m.x, m.y)) < Get(dm, PosOf(Current(s))) ==> OrderScore(s, m) > 500
  {
  }

  /** A move with its ordering score. */
  datatype ScoredMove = ScoredMove(move: Move, score: int)

  /** The moves paired with their scores, in the given order. */
  ghost function ScoredMoves(s: State, moves: seq<Move>): (sc: seq<ScoredMove>)
    requires WellFormed(s) && forall m :: m in moves ==> Orderable(m)
    ensures |sc| == |moves|
  {
    seq(|moves|, k requires 0 <= k < |moves| => ScoredMove(moves[k], OrderScore(s, moves[k])))
  }

  /** The moves of a scored list, in order. */
  function MovesOf(sc: seq<ScoredMove>): (ms: seq<Move>)
    ensures |ms| == |sc|
  {
    seq(|sc|, k requires 0 <= k < |sc| => sc[k].move)
  }

  /** The list puts higher scores first. */
  predicate Descending(r: seq<ScoredMove>) {
    forall i, j :: 0 <= i < j < |r| ==> r[i].score >= r[j].score
  }

  /** `x` inserted before the first entry that does not score higher, so
      that it stays ahead of the entries of equal score. */
  function InsertByScore(x: ScoredMove, r: seq<ScoredMove>): (q: seq<ScoredMove>)
    ensures multiset(q) == multiset(r) + multiset{x}
  {
    if |r| == 0 || x.score >= r[0].score then [x] + r
    else
      assert r == [r[0]] + r[1..];
      [r[0]] + InsertByScore(x, r[1..])
  }

  /** The list sorted by descending score, entries of equal score keeping
      their order: the stable sort the worker asks of the runtime. */
  function SortByScore(a: seq<ScoredMove>): (r: seq<ScoredMove>)
    ensures multiset(r) == multiset(a)
  {
    if |a| == 0 then []
    else
      assert a == [a[0]] + a[1..];
      InsertByScore(a[0], SortByScore(a[1..]))
  }

  /** A descending list stays descending without its first entry. */
  lemma DescendingTail(r: seq<ScoredMove>)
    requires Descending(r) && |r| > 0
    ensures Descending(r[1..])
  {
    forall i, j | 0 <= i < j < |r| - 1
      ensures r[1..][i].score >= r[1..][j].score
    {
      assert r[1..][i] == r[i + 1] && r[1..][j] == r[j + 1];
    }
  }

  /** An entry scoring at least the head of a descending list can go in front. */
  lemma DescendingCons(h: ScoredMove, t: seq<ScoredMove>)
    requires Descending(t) && (|t| > 0 ==> h.score >= t[0].score)
    ensures Descending([h] + t)
  {
    var q := [h] + t;
    forall i, j | 0 <= i < j < |q|
      ensures q[i].score >= q[j].score
    {
      assert q[j] == t[j - 1];
      if i > 0 {
        assert q[i] == t[i - 1];
      }
    }
  }

  lemma {:induction false} InsertKeepsDescending(x: ScoredMove, r: seq<ScoredMove>)
    requires Descending(r)
    ensures Descending(InsertByScore(x, r))
  {
    if |r| == 0 || x.score >= r[0].score {
      DescendingCons(x, r);
    } else {
      DescendingTail(r);
      InsertKeepsDescending(x, r[1..]);
      var tail := InsertByScore(x, r[1..]);
      assert tail[0] == x || tail[0] == r[1];
      DescendingCons(r[0], tail);
    }
  }

  lemma {:induction false} SortDescending(a: seq<ScoredMove>)
    ensures Descending(SortByScore(a))
  {
    if |a| > 0 {
      SortDescending(a[1..]);
      InsertKeepsDescending(a[0], SortByScore(a[1..]));
    }
  }

  /** The entries of score `v`, in order. */
  function WithScore(a: seq<ScoredMove>, v: int): (r: seq<ScoredMove>)
    ensures |r| <= |a| && forall k :: 0 <= k < |r| ==> r[k].score == v
  {
    if |a| == 0 then []
    else (if a[0].score == v then [a[0]] else []) + WithScore(a[1..], v)
  }

  lemma WithScoreCons(y: ScoredMove, t: seq<ScoredMove>, v: int)
    ensures WithScore([y] + t, v) == (if y.score == v then [y] else []) + WithScore(t, v)
  {
    assert ([y] + t)[1..] == t;
  }

  lemma {:induction false} InsertStable(x: ScoredMove, r: seq<ScoredMove>, v: int)
    ensures WithScore(InsertByScore(x, r), v) == (if x.score == v then [x] else []) + WithScore(r, v)
  {
    WithScoreCons(x, r, v);
    if |r| > 0 && x.score < r[0].score {
      var rest := r[1..];
      InsertStable(x, rest, v);
      WithScoreCons(r[0], InsertByScore(x, rest), v);
      WithScoreCons(r[0], rest, v);
      assert r == [r[0]] + rest;
    }
  }

  /** Sorting keeps the entries of each score in their original order. */
  lemma {:induction false} SortStable(a: seq<ScoredMove>, v: int)
    ensures WithScore(SortByScore(a), v) == WithScore(a, v)
  {
    if |a| > 0 {
      SortStable(a[1..], v);
      SortDescending(a[1..]);
      InsertStable(a[0], SortByScore(a[1..]), v);
    }
  }

  /** The order the worker searches `moves` in. */
  ghost function OrderedMoves(s: State, moves: seq<Move>): (o: seq<Move>)
    requires WellFormed(s) && forall m :: m in moves ==> Orderable(m)
    ensures multiset(o) == multiset(moves)
    ensures forall k :: 0 <= k < |o| ==> Orderable(o[k])
  {
    var sc := ScoredMoves(s, moves);
    SortPermutesMoves(sc);
    assert MovesOf(sc) == moves;
    var o := MovesOf(SortByScore(sc));
    assert forall k :: 0 <= k < |o| ==> o[k] in multiset(moves);
    o
  }

  /** Every entry of the scored list carries its move's own score. */
  lemma ScoredEntries(s: State, moves: seq<Move>, y: ScoredMove)
    requires WellFormed(s) && forall m :: m in moves ==> Orderable(m)
    requires y in SortByScore(ScoredMoves(s, moves))
    ensures y.move in moves && Orderable(y.move) && y.score == OrderScore(s, y.move)
  {
    var sc := ScoredMoves(s, moves);
    assert y in multiset(SortByScore(sc));
    var k :| 0 <= k < |sc| && sc[k] == y;
  }

  /** The ordered moves are the given moves, each as often, with higher
      ordering scores first and moves of equal score in their given order. */
  lemma OrderedMovesSpec(s: State, moves: seq<Move>)
    requires WellFormed(s) && forall m :: m in moves ==> Orderable(m)
    ensures multiset(OrderedMoves(s, moves)) == multiset(moves)
    ensures var o := OrderedMoves(s, moves);
      forall i, j :: 0 <= i < j < |o| ==> OrderScore(s, o[i]) >= OrderScore(s, o[j])
    ensures forall v :: WithScore(SortByScore(ScoredMoves(s, moves)), v) == WithScore(ScoredMoves(s, moves), v)
  {
    var sc := ScoredMoves(s, moves);
    var sorted := SortByScore(sc);
    var o := OrderedMoves(s, moves);
    SortDescending(sc);
    forall i, j | 0 <= i < j < |o|
      ensures OrderScore(s, o[i]) >= OrderScore(s, o[j])
    {
      ScoredEntries(s, moves, sorted[i]);
      ScoredEntries(s, moves, sorted[j]);
    }
    forall v
      ensures WithScore(sorted, v) == WithScore(sc, v)
    {
      SortStable(sc, v);
    }
  }

  lemma MovesOfCons(y: ScoredMove, t: seq<ScoredMove>)
    ensures MovesOf([y] + t) == [y.move] + MovesOf(t)
  {
  }

  lemma MovesOfFirst(a: seq<ScoredMove>)
    requires |a| > 0
    ensures MovesOf(a) == [a[0].move] + MovesOf(a[1..])
  {
    assert MovesOf(a)[1..] == MovesOf(a[1..]);
  }

  /** Inserting an entry adds its move to the moves of the list. */
  lemma {:induction false} InsertPermutesMoves(x: ScoredMove, r: seq<ScoredMove>)
    ensures multiset(MovesOf(InsertByScore(x, r))) == multiset(MovesOf(r)) + multiset{x.move}
  {
    MovesOfCons(x, r);
    if |r| > 0 && x.score < r[0].score {
      InsertPermutesMoves(x, r[1..]);
      MovesOfCons(r[0], InsertByScore(x, r[1..]));
      MovesOfCons(r[0], r[1..]);
      assert r == [r[0]] + r[1..];
    }
  }

  /** Sorting the entries permutes their moves. */
  lemma {:induction false} SortPermutesMoves(a: seq<ScoredMove>)
    ensures multiset(MovesOf(SortByScore(a))) == multiset(MovesOf(a))
  {
    if |a| > 0 {
      SortPermutesMoves(a[1..]);
      InsertPermutesMoves(a[0], SortByScore(a[1..]));
      MovesOfFirst(a);
    }
  }

  /** Every step onto the goal row and every step that gains ground comes
      before every wall in the worker's order. */
  lemma GainingStepsBeforeWalls(s: State, moves: seq<Move>, i: int, j: int)
    requires WellFormed(s) && forall m :: m in moves ==> Orderable(m)
    requires var o := OrderedMoves(s, moves); 0 <= i < |o| && 0 <= j < |o|
    requires var o := OrderedMoves(s, moves);
      var dm := DistanceMap(s.walls, GoalRow(s.currentPlayer));
      && o[i].MoveTo? && o[j].WallAt?
      && (o[i].y == GoalRow(s.currentPlayer) || Get(dm, Pos(o[i].x, o[i].y)) < Get(dm, PosOf(Current(s))))
    ensures i < j
  {
    var o := OrderedMoves(s, moves);
    OrderedMovesSpec(s, moves);
    assert o[i] in multiset(moves) && o[j] in multiset(moves);
    OrderScoreBands(s, o[i]);
    OrderScoreBands(s, o[j]);
  }

  /** The ordering score of one move, from the mover's distance map. */
  method ScoreForOrder(s: State, m: Move, distanceMap: Grid, currentDist: int) returns (score: int)
    requires WellFormed(s) && Orderable(m)
    requires distanceMap == DistanceMap(s.walls, GoalRow(s.currentPlayer))
    requires currentDist == Get(distanceMap, PosOf(Current(s)))
    ensures score == OrderScore(s, m)
  {
    var goalY := if s.currentPlayer == 0 then 8 else 0;
    match m
    case MoveTo(x, y) =>
      var newDist := Get(distanceMap, Pos(x, y));
      if y == goalY {
        score := 10000;
      } else if newDist < currentDist {
        score := 1000 + (currentDist - newDist) * 100;
      } else if newDist == currentDist {
        score := 500;
      } else {
        score := 100;
      }
    case WallAt(wx, wy, dir) =>
      var wallScore := EvaluateWallPlacement(s, wx, wy, dir);
      if wallScore.Some? {
        score := Clamp(250 + wallScore.value * 50);
      } else {
        score := 0;
      }
  }

  /** Scores every move from one distance map of the mover, then sorts. */
  method OrderMoves(s: State, moves: seq<Move>) returns (ordered: seq<Move>)
    requires WellFormed(s) && forall m :: m in moves ==> Orderable(m)
    ensures ordered == OrderedMoves(s, moves)
  {
    var goalY := if s.currentPlayer == 0 then 8 else 0;
    var distanceMap := GetDistanceMap(s.walls, goalY);
    var currentDist := Get(distanceMap, PosOf(Current(s)));
    var scoredMoves: seq<ScoredMove> := [];
    for k := 0 to |moves|
      invariant |scoredMoves| == k
      invariant forall j :: 0 <= j < k ==> scoredMoves[j] == ScoredMove(moves[j], OrderScore(s, moves[j]))
    {
      var score := ScoreForOrder(s, moves[k], distanceMap, currentDist);
      scoredMoves := scoredMoves + [ScoredMove(moves[k], score)];
    }
    assert scoredMoves == ScoredMoves(s, moves);
    var sorted := SortByScore(scoredMoves);
    ordered := MovesOf(sorted);
  }
}

/** Whether a token can still reach its goal row: a breadth-first search
    from the token's cell over a visited array, stopping at the first cell
    of the goal row it takes off the queue. */
module Reach {
  import opened Geometry
  import opened Distance
  import opened Game

  /** Some walk of open steps leads from `start` to row `goalY`. */
  ghost predicate ReachesGoal(walls: Walls, goalY: int, start: Pos) {
    exists path :: IsWalkToGoal(walls, goalY, start, path)
  }

  /** Descending the distance map gives a walk to the goal row. */
  lemma {:induction false} WalkFromDistance(walls: Walls, goalY: int, start: Pos) returns (path: seq<Pos>)
    requires 0 <= goalY < 9 && ValidPos(start)
    requires Get(DistanceMap(walls, goalY), start) >= 0
    ensures IsWalkToGoal(walls, goalY, start, path)
    ensures |path| == Get(DistanceMap(walls, goalY), start) + 1
    decreases Get(DistanceMap(walls, goalY), start)
  {
    var d := DistanceMap(walls, goalY);
    if start.y == goalY {
      path := [start];
    } else {
      assert HasPredecessor(walls, d, start);
      var k :| 0 <= k < 4 && StepsDown(walls, d, start, k);
      var n := Neighbor(start, k);
      BlockedSymmetric(walls, n.x, n.y, start.x, start.y);
      var rest := WalkFromDistance(walls, goalY, n);
      path := [start] + rest;
      assert IsStep(walls, start, n);
      assert forall i :: 0 < i < |path| ==> path[i] == rest[i - 1];
    }
  }

  /** The goal row is reachable exactly when the distance map labels the
      start cell. */
  lemma ReachableIffLabelled(walls: Walls, goalY: int, start: Pos)
    requires 0 <= goalY < 9 && ValidPos(start)
    ensures ReachesGoal(walls, goalY, start) <==> Get(DistanceMap(walls, goalY), start) >= 0
  {
    if Get(DistanceMap(walls, goalY), start) >= 0 {
      var path := WalkFromDistance(walls, goalY, start);
    } else if ReachesGoal(walls, goalY, start) {
      var path :| IsWalkToGoal(walls, goalY, start, path);
      WalkAtLeastDistance(walls, goalY, start, path);
    }
  }

  /** An open step out of an unlabelled cell leads to an unlabelled cell. */
  lemma UnlabelledSpreads(walls: Walls, goalY: int, dm: Grid, a: Pos, b: Pos)
    requires IsDistanceMap(walls, goalY, dm) && ValidPos(a)
    requires IsStep(walls, a, b)
    ensures Get(dm, a) == -1 ==> Get(dm, b) == -1
  {
    var k :| 0 <= k < 4 && b == Neighbor(a, k) && OpenStep(walls, a, b);
    assert Get(dm, b) >= -1;
    if Get(dm, b) >= 0 {
      var j := Opposite(k);
      assert Neighbor(b, j) == a;
      BlockedSymmetric(walls, a.x, a.y, b.x, b.y);
      assert ClosedAt(walls, dm, b);
      assert HandledAt(walls, dm, b, j);
    }
  }

  /** Every open step out of `c` leads into `seen`. */
  ghost predicate ExploredAt(walls: Walls, seen: set<Pos>, c: Pos) {
    forall k :: 0 <= k < 4 && OpenStep(walls, c, Neighbor(c, k)) ==> Neighbor(c, k) in seen
  }

  /** The cells of `done` are off the goal row and have all their open
      neighbours in `seen`. */
  ghost predicate DoneOk(walls: Walls, goalY: int, seen: set<Pos>, done: set<Pos>) {
    forall c :: c in done ==> c.y != goalY && ExploredAt(walls, seen, c)
  }

  ghost predicate AllUnlabelled(d: Grid, seen: set<Pos>) {
    forall p {:trigger Get(d, p)} :: ValidPos(p) && p in seen ==> Get(d, p) == -1
  }

  /** A region closed under open steps that misses the goal row holds only
      unlabelled cells. */
  lemma {:induction false} ClosedRegionUnlabelled(walls: Walls, goalY: int, dm: Grid, region: set<Pos>, c: Pos)
    requires IsDistanceMap(walls, goalY, dm)
    requires region <= AllCells() && DoneOk(walls, goalY, region, region)
    requires c in region
    ensures Get(dm, c) == -1
    decreases Get(dm, c) + 1
  {
    assert Get(dm, c) >= -1;
    if Get(dm, c) >= 0 {
      assert HasPredecessor(walls, dm, c);
      var k :| 0 <= k < 4 && StepsDown(walls, dm, c, k);
      var n := Neighbor(c, k);
      BlockedSymmetric(walls, n.x, n.y, c.x, c.y);
      assert ExploredAt(walls, region, c);
      ClosedRegionUnlabelled(walls, goalY, dm, region, n);
      assert false;
    }
  }

  /** The cells reached so far from `start`; each is in `done` or queued. */
  ghost predicate Frontier(walls: Walls, goalY: int, start: Pos, queue: seq<Pos>, seen: set<Pos>, done: set<Pos>) {
    && seen <= AllCells() && start in seen && done <= seen
    && (forall i :: 0 <= i < |queue| ==> queue[i] in seen)
    && (forall p :: p in seen ==> p in done || p in queue)
    && DoneOk(walls, goalY, seen, done)
  }

  ghost predicate Mirrors(visited: array2<bool>, seen: set<Pos>)
    reads visited
    requires visited.Length0 == 9 && visited.Length1 == 9
  {
    forall p :: ValidPos(p) ==> (visited[p.y, p.x] <==> p in seen)
  }

  /** Whether player `playerIndex` can reach its goal row on the grid of
      `s`; the other token does not block the way. */
  method CanReachGoal(s: State, playerIndex: PlayerIndex) returns (r: bool)
    requires ValidPos(PosOf(s.players[playerIndex]))
    ensures r <==> ReachesGoal(s.walls, GoalRow(playerIndex), PosOf(s.players[playerIndex]))
  {
    var player := s.players[playerIndex];
    var goalY := GoalRow(playerIndex);
    var start := Pos(player.x, player.y);
    var visited := new bool[9, 9]((y, x) => false);
    var queue := [start];
    visited[start.y, start.x] := true;
    r := DrainQueue(s.walls, goalY, start, visited, queue, DistanceMap(s.walls, goalY));
    ReachableIffLabelled(s.walls, goalY, start);
  }

  /** The search loop: take the next cell off the queue, stop when it lies
      on the goal row, otherwise queue its open unvisited neighbours. */
  method DrainQueue(walls: Walls, goalY: int, start: Pos, visited: array2<bool>, queue0: seq<Pos>, ghost dm: Grid)
    returns (r: bool)
    requires IsDistanceMap(walls, goalY, dm) && ValidPos(start)
    requires visited.Length0 == 9 && visited.Length1 == 9
    requires Mirrors(visited, {start}) && queue0 == [start]
    modifies visited
    ensures r <==> Get(dm, start) >= 0
  {
    var queue := queue0;
    ghost var seen := {start};
    ghost var done: set<Pos> := {};
    ghost var lost := Get(dm, start) == -1;
    while |queue| > 0
      invariant Mirrors(visited, seen)
      invariant Frontier(walls, goalY, start, queue, seen, done)
      invariant lost ==> AllUnlabelled(dm, seen)
      decreases AllCells() - seen, |queue|
    {
      var current := queue[0];
      queue := queue[1..];
      if current.y == goalY {
        assert Get(dm, current) == 0;
        return true;
      }
      ghost var seen0 := seen;
      ghost var queue0 := queue;
      queue, seen := VisitNeighbors(walls, visited, current, queue, seen);
      UnlabelledStep(walls, goalY, dm, start, current, seen0, seen);
      done := done + {current};
      FrontierStep(walls, goalY, start, current, queue0, queue, seen0, seen, done - {current});
    }
    StartUnlabelled(walls, goalY, dm, start, seen, done);
    return false;
  }

  /** The cells newly reached from `current` stay unlabelled when the
      start is. */
  lemma UnlabelledStep(walls: Walls, goalY: int, dm: Grid, start: Pos, current: Pos, seen0: set<Pos>, seen: set<Pos>)
    requires IsDistanceMap(walls, goalY, dm) && ValidPos(start) && ValidPos(current) && current in seen0
    requires Get(dm, start) == -1 ==> AllUnlabelled(dm, seen0)
    requires forall p :: p in seen && p !in seen0 ==> IsStep(walls, current, p)
    requires seen0 <= seen
    ensures Get(dm, start) == -1 ==> AllUnlabelled(dm, seen)
  {
    forall p | p in seen - seen0
      ensures ValidPos(p) && (Get(dm, current) == -1 ==> Get(dm, p) == -1)
    {
      UnlabelledSpreads(walls, goalY, dm, current, p);
    }
  }

  /** When the search runs dry, the cells it reached form a region closed
      under open steps that misses the goal row, so the start is
      unlabelled. */
  lemma StartUnlabelled(walls: Walls, goalY: int, dm: Grid, start: Pos, seen: set<Pos>, done: set<Pos>)
    requires IsDistanceMap(walls, goalY, dm)
    requires Frontier(walls, goalY, start, [], seen, done)
    ensures Get(dm, start) == -1
  {
    assert seen == done;
    ClosedRegionUnlabelled(walls, goalY, dm, seen, start);
  }

  lemma ExploredMono(walls: Walls, s1: set<Pos>, s2: set<Pos>, c: Pos)
    requires s1 <= s2 && ExploredAt(walls, s1, c)
    ensures ExploredAt(walls, s2, c)
  {
  }

  /** Expanding the dequeued cell keeps the frontier description. */
  lemma FrontierStep(walls: Walls, goalY: int, start: Pos, current: Pos,
                     queue0: seq<Pos>, queue: seq<Pos>, seen0: set<Pos>, seen: set<Pos>, done0: set<Pos>)
    requires Frontier(walls, goalY, start, [current] + queue0, seen0, done0)
    requires current.y != goalY
    requires seen0 <= seen <= AllCells() && ExploredAt(walls, seen, current)
    requires |queue| >= |queue0| && queue[..|queue0|] == queue0
    requires forall p :: p in seen && p !in seen0 ==> p in queue
    requires forall i :: |queue0| <= i < |queue| ==> queue[i] in seen
    ensures Frontier(walls, goalY, start, queue, seen, done0 + {current})
  {
    DoneStep(walls, goalY, current, seen0, seen, done0);
    QueueStep(current, queue0, queue, seen0, seen, done0);
    assert current in seen0 by {
      assert ([current] + queue0)[0] == current;
    }
  }

  lemma DoneStep(walls: Walls, goalY: int, current: Pos, seen0: set<Pos>, seen: set<Pos>, done0: set<Pos>)
    requires DoneOk(walls, goalY, seen0, done0)
    requires current.y != goalY && seen0 <= seen && ExploredAt(walls, seen, current)
    ensures DoneOk(walls, goalY, seen, done0 + {current})
  {
    forall c | c in done0 + {current}
      ensures c.y != goalY && ExploredAt(walls, seen, c)
    {
      if c != current {
        ExploredMono(walls, seen0, seen, c);
      }
    }
  }

  lemma QueueStep(current: Pos, queue0: seq<Pos>, queue: seq<Pos>, seen0: set<Pos>, seen: set<Pos>, done0: set<Pos>)
    requires forall i :: 0 <= i < |[current] + queue0| ==> ([current] + queue0)[i] in seen0
    requires forall p :: p in seen0 ==> p in done0 || p in [current] + queue0
    requires seen0 <= seen
    requires |queue| >= |queue0| && queue[..|queue0|] == queue0
    requires forall p :: p in seen && p !in seen0 ==> p in queue
    requires forall i :: |queue0| <= i < |queue| ==> queue[i] in seen
    ensures forall i :: 0 <= i < |queue| ==> queue[i] in seen
    ensures forall p :: p in seen ==> p in done0 + {current} || p in queue
  {
    var q := [current] + queue0;
    forall i | 0 <= i < |queue|
      ensures queue[i] in seen
    {
      if i < |queue0| {
        assert queue[i] == queue0[i] == q[i + 1];
      }
    }
    forall p | p in seen
      ensures p in done0 + {current} || p in queue
    {
      if p in seen0 && p !in done0 && p != current {
        var i :| 0 <= i < |q| && q[i] == p;
        assert queue[i - 1] == p;
      }
    }
  }

  /** One round of the inner loop: every open, unvisited neighbour of
      `current` (up, down, left, right) is marked visited and queued. */
  method VisitNeighbors(walls: Walls, visited: array2<bool>, current: Pos, queue0: seq<Pos>, ghost seen0: set<Pos>)
    returns (queue: seq<Pos>, ghost seen: set<Pos>)
    requires visited.Length0 == 9 && visited.Length1 == 9
    requires ValidPos(current) && seen0 <= AllCells()
    requires Mirrors(visited, seen0)
    modifies visited
    ensures Mirrors(visited, seen)
    ensures seen0 <= seen <= AllCells() && ExploredAt(walls, seen, current)
    ensures forall p :: p in seen && p !in seen0 ==> IsStep(walls, current, p) && p in queue
    ensures |queue| >= |queue0| && queue[..|queue0|] == queue0
    ensures forall i :: |queue0| <= i < |queue| ==> queue[i] in seen
    ensures seen == seen0 ==> queue == queue0
  {
    queue, seen := queue0, seen0;
    for k := 0 to 4
      invariant Mirrors(visited, seen)
      invariant seen0 <= seen <= AllCells()
      invariant forall j :: 0 <= j < k && OpenStep(walls, current, Neighbor(current, j)) ==> Neighbor(current, j) in seen
      invariant forall p :: p in seen && p !in seen0 ==> IsStep(walls, current, p) && p in queue
      invariant |queue| >= |queue0| && queue[..|queue0|] == queue0
      invariant forall i :: |queue0| <= i < |queue| ==> queue[i] in seen
      invariant seen == seen0 ==> queue == queue0
    {
      var n := Neighbor(current, k);
      if !ValidCell(n.x, n.y) {
        continue;
      }
      if visited[n.y, n.x] {
        continue;
      }
      if IsBlocked(walls, current.x, current.y, n.x, n.y) {
        continue;
      }
      visited[n.y, n.x] := true;
      seen := seen + {n};
      queue := queue + [n];
    }
  }
}

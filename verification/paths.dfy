/** Counting shortest routes to the goal row, as the lock test needs it: a
    depth-first descent through the distance map that adds up the routes of
    every open neighbour one step closer, remembers each cell's count, gives
    up below depth 20 by reporting one route, and stops as soon as two
    routes are known. */
module Paths {
  import opened Geometry
  import opened Distance

  /** Depth past which the descent stops and reports a single route. */
  const DEPTH_LIMIT: int := 20

  /** The number of shortest routes from `p`: walks that step to an open
      neighbour labelled one less at every step until they reach a cell
      labelled 0. */
  ghost function NumPaths(walls: Walls, dm: Grid, p: Pos): nat
    requires ValidPos(p)
    decreases if Get(dm, p) < 0 then 0 else Get(dm, p), 5
  {
    if Get(dm, p) == 0 then 1
    else if Get(dm, p) < 0 then 0
    else DescentSum(walls, dm, p, 4)
  }

  /** The routes through the first `k` directions out of `p`. */
  ghost function DescentSum(walls: Walls, dm: Grid, p: Pos, k: int): nat
    requires ValidPos(p) && 0 <= k <= 4 && Get(dm, p) > 0
    decreases Get(dm, p), k
  {
    if k == 0 then 0
    else
      DescentSum(walls, dm, p, k - 1)
      + (if Descends(walls, dm, p, k - 1) then NumPaths(walls, dm, Neighbor(p, k - 1)) else 0)
  }

  /** `n` capped at 2: all the lock test distinguishes is none, one, or
      more than one. */
  function Min2(n: int): int {
    if n < 2 then n else 2
  }

  // ---------------------------------------------------------------------
  // The count as the game computes it

  /** The count from `p` at recursion depth `depth`, and the memo after it. */
  function CountRec(walls: Walls, dm: Grid, memo: Grid, p: Pos, depth: nat): (Grid, int)
    requires ValidPos(p)
    decreases DEPTH_LIMIT + 1 - depth, 5
  {
    if Get(dm, p) == 0 then (memo, 1)
    else if Get(memo, p) != -1 then (memo, Get(memo, p))
    else if depth > DEPTH_LIMIT then (memo, 1)
    else CountLoop(walls, dm, memo, p, depth, 0, 0)
  }

  /** The direction loop of the count from direction `k` on, with `count`
      routes found so far; it stores the count in the memo when it
      finishes or stops early at two. */
  function CountLoop(walls: Walls, dm: Grid, memo: Grid, p: Pos, depth: nat, k: int, count: int): (Grid, int)
    requires ValidPos(p) && 0 <= k <= 4 && depth <= DEPTH_LIMIT
    decreases DEPTH_LIMIT + 1 - depth, 4 - k
  {
    if k == 4 then (Set(memo, p, count), count)
    else if !Descends(walls, dm, p, k) then CountLoop(walls, dm, memo, p, depth, k + 1, count)
    else
      var r := CountRec(walls, dm, memo, Neighbor(p, k), depth + 1);
      var c := count + r.1;
      if c >= 2 then (Set(r.0, p, c), c)
      else CountLoop(walls, dm, r.0, p, depth, k + 1, c)
  }

  /** The number of shortest routes from `p`, capped as above: 1 on the
      goal row, 0 when the goal row cannot be reached. */
  function CountShortestPaths(walls: Walls, p: Pos, dm: Grid): int
    requires ValidPos(p)
  {
    var dist := Get(dm, p);
    if dist == 0 then 1
    else if dist == -1 then 0
    else CountRec(walls, dm, BlankGrid(), p, 0).1
  }

  // ---------------------------------------------------------------------
  // What the count means

  /** `c` is a sound count for `p`: at least one route and no more than
      there are, and exact up to 2 when no depth limit was hit. */
  ghost predicate CountOk(walls: Walls, dm: Grid, p: Pos, c: int, exact: bool)
    requires ValidPos(p)
  {
    1 <= c <= NumPaths(walls, dm, p) && (exact ==> Min2(c) == Min2(NumPaths(walls, dm, p)))
  }

  /** Every remembered count is sound. */
  ghost predicate MemoOk(walls: Walls, dm: Grid, memo: Grid, exact: bool) {
    forall q {:trigger Get(memo, q)} :: ValidPos(q) && Get(memo, q) != -1 ==> CountOk(walls, dm, q, Get(memo, q), exact)
  }

  /** Every cell labelled 1 or more has a direction that descends. */
  lemma DescentExists(walls: Walls, goalY: int, dm: Grid, p: Pos) returns (k: int)
    requires IsDistanceMap(walls, goalY, dm) && ValidPos(p) && Get(dm, p) > 0
    ensures 0 <= k < 4 && Descends(walls, dm, p, k)
  {
    assert p.y != goalY;
    assert HasPredecessor(walls, dm, p);
    k :| 0 <= k < 4 && StepsDown(walls, dm, p, k);
    var n := Neighbor(p, k);
    BlockedSymmetric(walls, p.x, p.y, n.x, n.y);
  }

  /** A direction that descends contributes its routes to the sum. */
  lemma {:induction false} DescentSumCovers(walls: Walls, dm: Grid, p: Pos, k: int, j: int)
    requires ValidPos(p) && 0 <= j < k <= 4 && Get(dm, p) > 0 && Descends(walls, dm, p, j)
    ensures DescentSum(walls, dm, p, k) >= NumPaths(walls, dm, Neighbor(p, j))
  {
    if j < k - 1 {
      DescentSumCovers(walls, dm, p, k - 1, j);
    }
  }

  lemma {:induction false} DescentSumMono(walls: Walls, dm: Grid, p: Pos, k: int)
    requires ValidPos(p) && 0 <= k <= 4 && Get(dm, p) > 0
    ensures DescentSum(walls, dm, p, k) <= DescentSum(walls, dm, p, 4)
    decreases 4 - k
  {
    if k < 4 {
      DescentSumMono(walls, dm, p, k + 1);
    }
  }

  /** Every cell that reaches the goal row has at least one shortest route. */
  lemma {:induction false} RouteExists(walls: Walls, goalY: int, dm: Grid, p: Pos)
    requires IsDistanceMap(walls, goalY, dm) && ValidPos(p) && Get(dm, p) >= 0
    ensures NumPaths(walls, dm, p) >= 1
    decreases Get(dm, p)
  {
    if Get(dm, p) > 0 {
      var k := DescentExists(walls, goalY, dm, p);
      RouteExists(walls, goalY, dm, Neighbor(p, k));
      DescentSumCovers(walls, dm, p, 4, k);
    }
  }

  /** Every labelled cell has at least one shortest route. */
  ghost predicate Routed(walls: Walls, dm: Grid) {
    forall q {:trigger NumPaths(walls, dm, q)} :: ValidPos(q) && Get(dm, q) >= 0 ==> NumPaths(walls, dm, q) >= 1
  }

  lemma AllRouted(walls: Walls, goalY: int, dm: Grid)
    requires IsDistanceMap(walls, goalY, dm)
    ensures Routed(walls, dm)
  {
    forall q | ValidPos(q) && Get(dm, q) >= 0
      ensures NumPaths(walls, dm, q) >= 1
    {
      RouteExists(walls, goalY, dm, q);
    }
  }

  /** No route leaves through directions that do not descend. */
  lemma {:induction false} DescentSumNone(walls: Walls, dm: Grid, p: Pos, k: int)
    requires ValidPos(p) && 0 <= k <= 4 && Get(dm, p) > 0
    requires forall j :: 0 <= j < k ==> !Descends(walls, dm, p, j)
    ensures DescentSum(walls, dm, p, k) == 0
  {
    if k > 0 {
      DescentSumNone(walls, dm, p, k - 1);
    }
  }

  /** A labelled cell away from the goal has a route through some descent. */
  lemma RoutedDescends(walls: Walls, dm: Grid, p: Pos)
    requires Routed(walls, dm) && ValidPos(p) && Get(dm, p) > 0
    ensures DescentSum(walls, dm, p, 4) >= 1
  {
    assert NumPaths(walls, dm, p) >= 1;
  }

  lemma SetKeepsMemoOk(walls: Walls, dm: Grid, memo: Grid, p: Pos, c: int, exact: bool)
    requires ValidPos(p) && MemoOk(walls, dm, memo, exact) && CountOk(walls, dm, p, c, exact)
    ensures MemoOk(walls, dm, Set(memo, p, c), exact)
  {
    GetSet(memo, p, c);
  }

  /** The count from a labelled cell is sound, and it leaves a sound memo. */
  lemma {:induction false} CountRecOk(walls: Walls, dm: Grid, memo: Grid, p: Pos, depth: nat, exact: bool)
    requires Routed(walls, dm) && ValidPos(p) && Get(dm, p) >= 0
    requires exact ==> depth + Get(dm, p) <= DEPTH_LIMIT + 1
    requires MemoOk(walls, dm, memo, exact)
    ensures MemoOk(walls, dm, CountRec(walls, dm, memo, p, depth).0, exact)
    ensures CountOk(walls, dm, p, CountRec(walls, dm, memo, p, depth).1, exact)
    decreases DEPTH_LIMIT + 1 - depth, 5, 0
  {
    if Get(dm, p) == 0 {
    } else if Get(memo, p) != -1 {
    } else if depth > DEPTH_LIMIT {
    } else {
      CountLoopOk(walls, dm, memo, p, depth, 0, 0, exact);
    }
  }

  lemma {:induction false} CountLoopOk(walls: Walls, dm: Grid, memo: Grid, p: Pos, depth: nat, k: int, count: int, exact: bool)
    requires Routed(walls, dm) && ValidPos(p) && Get(dm, p) > 0
    requires 0 <= k <= 4 && depth <= DEPTH_LIMIT
    requires exact ==> depth + Get(dm, p) <= DEPTH_LIMIT + 1
    requires MemoOk(walls, dm, memo, exact)
    requires 0 <= count <= DescentSum(walls, dm, p, k) && count < 2
    requires exact ==> count == DescentSum(walls, dm, p, k)
    requires count >= 1 || forall j :: 0 <= j < k ==> !Descends(walls, dm, p, j)
    ensures MemoOk(walls, dm, CountLoop(walls, dm, memo, p, depth, k, count).0, exact)
    ensures CountOk(walls, dm, p, CountLoop(walls, dm, memo, p, depth, k, count).1, exact)
    decreases DEPTH_LIMIT + 1 - depth, 4 - k, 2
  {
    if k == 4 {
      CountLoopFinishOk(walls, dm, memo, p, depth, count, exact);
    } else if !Descends(walls, dm, p, k) {
      CountLoopSkips(walls, dm, memo, p, depth, k, count);
      CountLoopOk(walls, dm, memo, p, depth, k + 1, count, exact);
    } else {
      CountLoopDescentOk(walls, dm, memo, p, depth, k, count, exact);
    }
  }

  /** The end of the loop: the count found is sound and is remembered. */
  lemma CountLoopFinishOk(walls: Walls, dm: Grid, memo: Grid, p: Pos, depth: nat, count: int, exact: bool)
    requires Routed(walls, dm) && ValidPos(p) && Get(dm, p) > 0 && depth <= DEPTH_LIMIT
    requires MemoOk(walls, dm, memo, exact)
    requires 0 <= count <= DescentSum(walls, dm, p, 4) && count < 2
    requires exact ==> count == DescentSum(walls, dm, p, 4)
    requires count >= 1 || forall j :: 0 <= j < 4 ==> !Descends(walls, dm, p, j)
    ensures CountLoop(walls, dm, memo, p, depth, 4, count) == (Set(memo, p, count), count)
    ensures MemoOk(walls, dm, Set(memo, p, count), exact)
    ensures CountOk(walls, dm, p, count, exact)
  {
    RoutedDescends(walls, dm, p);
    if count == 0 {
      DescentSumNone(walls, dm, p, 4);
      assert false;
    }
    SetKeepsMemoOk(walls, dm, memo, p, count, exact);
  }

  /** The loop step through a direction that descends. */
  lemma {:induction false} CountLoopDescentOk(walls: Walls, dm: Grid, memo: Grid, p: Pos, depth: nat, k: int, count: int, exact: bool)
    requires Routed(walls, dm) && ValidPos(p) && Get(dm, p) > 0
    requires 0 <= k < 4 && depth <= DEPTH_LIMIT && Descends(walls, dm, p, k)
    requires exact ==> depth + Get(dm, p) <= DEPTH_LIMIT + 1
    requires MemoOk(walls, dm, memo, exact)
    requires 0 <= count <= DescentSum(walls, dm, p, k) && count < 2
    requires exact ==> count == DescentSum(walls, dm, p, k)
    ensures MemoOk(walls, dm, CountLoop(walls, dm, memo, p, depth, k, count).0, exact)
    ensures CountOk(walls, dm, p, CountLoop(walls, dm, memo, p, depth, k, count).1, exact)
    decreases DEPTH_LIMIT + 1 - depth, 4 - k, 1
  {
    var n := Neighbor(p, k);
    var r := CountRec(walls, dm, memo, n, depth + 1);
    CountRecOk(walls, dm, memo, n, depth + 1, exact);
    DescentSumStep(walls, dm, p, k);
    if count + r.1 >= 2 {
      CountLoopDescentStops(walls, dm, memo, p, depth, k, count, r.0, r.1, exact);
    } else {
      CountLoopDescentGoesOn(walls, dm, memo, p, depth, k, count, r.0, r.1, exact);
    }
  }

  /** A descent that brings the count to two ends the loop. */
  lemma CountLoopDescentStops(walls: Walls, dm: Grid, memo: Grid, p: Pos, depth: nat, k: int, count: int,
                              memo': Grid, sub: int, exact: bool)
    requires ValidPos(p) && Get(dm, p) > 0
    requires 0 <= k < 4 && depth <= DEPTH_LIMIT && Descends(walls, dm, p, k)
    requires (memo', sub) == CountRec(walls, dm, memo, Neighbor(p, k), depth + 1)
    requires MemoOk(walls, dm, memo', exact) && sub <= NumPaths(walls, dm, Neighbor(p, k))
    requires 0 <= count <= DescentSum(walls, dm, p, k) && count + sub >= 2
    requires DescentSum(walls, dm, p, k + 1) == DescentSum(walls, dm, p, k) + NumPaths(walls, dm, Neighbor(p, k))
    ensures MemoOk(walls, dm, CountLoop(walls, dm, memo, p, depth, k, count).0, exact)
    ensures CountOk(walls, dm, p, CountLoop(walls, dm, memo, p, depth, k, count).1, exact)
  {
    CountLoopDescends(walls, dm, memo, p, depth, k, count, memo', sub, CountLoop(walls, dm, memo, p, depth, k, count));
    CountLoopStopOk(walls, dm, memo', p, k, count, sub, exact);
  }

  /** A descent that leaves the count below two moves on to the next direction. */
  lemma {:induction false} CountLoopDescentGoesOn(walls: Walls, dm: Grid, memo: Grid, p: Pos, depth: nat, k: int, count: int,
                                                  memo': Grid, sub: int, exact: bool)
    requires Routed(walls, dm) && ValidPos(p) && Get(dm, p) > 0
    requires 0 <= k < 4 && depth <= DEPTH_LIMIT && Descends(walls, dm, p, k)
    requires exact ==> depth + Get(dm, p) <= DEPTH_LIMIT + 1
    requires (memo', sub) == CountRec(walls, dm, memo, Neighbor(p, k), depth + 1)
    requires MemoOk(walls, dm, memo', exact) && CountOk(walls, dm, Neighbor(p, k), sub, exact)
    requires 0 <= count <= DescentSum(walls, dm, p, k) && count + sub < 2
    requires exact ==> count == DescentSum(walls, dm, p, k)
    requires DescentSum(walls, dm, p, k + 1) == DescentSum(walls, dm, p, k) + NumPaths(walls, dm, Neighbor(p, k))
    ensures MemoOk(walls, dm, CountLoop(walls, dm, memo, p, depth, k, count).0, exact)
    ensures CountOk(walls, dm, p, CountLoop(walls, dm, memo, p, depth, k, count).1, exact)
    decreases DEPTH_LIMIT + 1 - depth, 4 - k, 0
  {
    CountLoopDescends(walls, dm, memo, p, depth, k, count, memo', sub, CountLoop(walls, dm, memo, p, depth, k, count));
    CountLoopOk(walls, dm, memo', p, depth, k + 1, count + sub, exact);
  }

  /** The early stop at two routes: the count is sound and is remembered. */
  lemma CountLoopStopOk(walls: Walls, dm: Grid, memo: Grid, p: Pos, k: int, count: int, sub: int, exact: bool)
    requires ValidPos(p) && 0 <= k < 4 && Get(dm, p) > 0 && Descends(walls, dm, p, k)
    requires MemoOk(walls, dm, memo, exact)
    requires 0 <= count <= DescentSum(walls, dm, p, k) && count + sub >= 2
    requires sub <= NumPaths(walls, dm, Neighbor(p, k))
    requires DescentSum(walls, dm, p, k + 1) == DescentSum(walls, dm, p, k) + NumPaths(walls, dm, Neighbor(p, k))
    ensures MemoOk(walls, dm, Set(memo, p, count + sub), exact)
    ensures CountOk(walls, dm, p, count + sub, exact)
  {
    DescentSumMono(walls, dm, p, k + 1);
    SetKeepsMemoOk(walls, dm, memo, p, count + sub, exact);
  }

  lemma DescentSumStep(walls: Walls, dm: Grid, p: Pos, k: int)
    requires ValidPos(p) && 0 <= k < 4 && Get(dm, p) > 0 && Descends(walls, dm, p, k)
    ensures DescentSum(walls, dm, p, k + 1) == DescentSum(walls, dm, p, k) + NumPaths(walls, dm, Neighbor(p, k))
  {
  }

  /** The count never reports more routes than there are; it reports at
      least one for every cell that reaches the goal row and none for the
      others; and from a cell at most 21 steps away (so that the depth
      limit is never hit) it is exact up to 2: it reports two or more
      exactly when several shortest routes exist. */
  lemma CountShortestPathsSound(walls: Walls, goalY: int, dm: Grid, p: Pos)
    requires IsDistanceMap(walls, goalY, dm) && ValidPos(p)
    ensures var c := CountShortestPaths(walls, p, dm);
      && 0 <= c <= NumPaths(walls, dm, p)
      && (c == 0 <==> Get(dm, p) == -1)
      && (Get(dm, p) <= DEPTH_LIMIT + 1 ==> (c >= 2 <==> NumPaths(walls, dm, p) >= 2))
  {
    var dist := Get(dm, p);
    if dist > 0 {
      var exact := dist <= DEPTH_LIMIT + 1;
      assert MemoOk(walls, dm, BlankGrid(), exact);
      AllRouted(walls, goalY, dm);
      CountRecOk(walls, dm, BlankGrid(), p, 0, exact);
    }
  }

  /** On the empty grid every cell has exactly one shortest route: straight
      along its column. */
  lemma {:induction false} EmptyBoardSingleRoute(goalY: int, p: Pos)
    requires 0 <= goalY < 9 && ValidPos(p)
    ensures NumPaths(EmptyWalls(), RowGap(goalY), p) == 1
    decreases Gap(p.y, goalY)
  {
    var w, dm := EmptyWalls(), RowGap(goalY);
    RowGapIsDistanceMap(goalY);
    if p.y != goalY {
      var k := if p.y < goalY then 1 else 0;
      var n := Neighbor(p, k);
      EmptyBoardSingleRoute(goalY, n);
      EmptyGridBlocksNothing(p.x, p.y, n.x, n.y);
      forall j | 0 <= j < 4 && j != k
        ensures !Descends(w, dm, p, j)
      {
      }
      assert DescentSum(w, dm, p, 4) == NumPaths(w, dm, n) by {
        assert DescentSum(w, dm, p, 1) == (if k == 0 then NumPaths(w, dm, n) else 0);
        assert DescentSum(w, dm, p, 2) == NumPaths(w, dm, n);
        assert DescentSum(w, dm, p, 3) == NumPaths(w, dm, n);
      }
    }
  }

  // ---------------------------------------------------------------------
  // The count as the game runs it, over a memo array

  /** The memo array holds the grid `g`. */
  ghost predicate Holds(memo: array2<int>, g: Grid)
    requires memo.Length0 == 9 && memo.Length1 == 9
    reads memo
  {
    forall y, x :: 0 <= y < 9 && 0 <= x < 9 ==> memo[y, x] == g[y][x]
  }

  method CountShortestPathsOf(walls: Walls, x: int, y: int, dm: Grid) returns (count: int)
    requires ValidCell(x, y)
    ensures count == CountShortestPaths(walls, Pos(x, y), dm)
  {
    var dist := Get(dm, Pos(x, y));
    if dist == 0 {
      return 1;
    }
    if dist == -1 {
      return 0;
    }
    var memo := new int[9, 9]((i, j) => -1);
    ghost var g;
    count, g := CountPathsRecursive(walls, x, y, dm, memo, 0, BlankGrid());
  }

  /** One level of the descent: the goal test, the memo lookup, the depth
      limit, then the direction loop with its early stop at two routes.
      `g0` and `g` are the memo before and after, as grids. */
  method CountPathsRecursive(walls: Walls, x: int, y: int, dm: Grid, memo: array2<int>, depth: nat, ghost g0: Grid)
    returns (count: int, ghost g: Grid)
    requires ValidCell(x, y) && memo.Length0 == 9 && memo.Length1 == 9 && Holds(memo, g0)
    modifies memo
    ensures Holds(memo, g)
    ensures (g, count) == CountRec(walls, dm, g0, Pos(x, y), depth)
    decreases DEPTH_LIMIT + 1 - depth, 1, 0
  {
    var p := Pos(x, y);
    var dist := Get(dm, p);
    g := g0;
    if dist == 0 {
      return 1, g;
    }
    if memo[y, x] != -1 {
      return memo[y, x], g;
    }
    if depth > DEPTH_LIMIT {
      return 1, g;
    }
    count, g := CountDirections(walls, x, y, dm, memo, depth, g0);
  }

  /** The direction loop of one level: each open neighbour one step closer
      is descended into and its routes added, stopping at two; the count is
      then remembered for the cell. */
  method CountDirections(walls: Walls, x: int, y: int, dm: Grid, memo: array2<int>, depth: nat, ghost g0: Grid)
    returns (count: int, ghost g: Grid)
    requires ValidCell(x, y) && memo.Length0 == 9 && memo.Length1 == 9 && Holds(memo, g0) && depth <= DEPTH_LIMIT
    modifies memo
    ensures Holds(memo, g)
    ensures (g, count) == CountLoop(walls, dm, g0, Pos(x, y), depth, 0, 0)
    decreases DEPTH_LIMIT + 1 - depth, 0, 1
  {
    var p := Pos(x, y);
    var dist := Get(dm, p);
    g := g0;
    ghost var goal := CountLoop(walls, dm, g0, p, depth, 0, 0);
    count := 0;
    for k := 0 to 4
      invariant Holds(memo, g)
      invariant CountLoop(walls, dm, g, p, depth, k, count) == goal
    {
      var nx, ny := x + DX(k), y + DY(k);
      assert Pos(nx, ny) == Neighbor(p, k);
      if !ValidCell(nx, ny) {
        CountLoopSkips(walls, dm, g, p, depth, k, count);
        continue;
      }
      if IsBlocked(walls, x, y, nx, ny) {
        CountLoopSkips(walls, dm, g, p, depth, k, count);
        continue;
      }
      if Get(dm, Pos(nx, ny)) != dist - 1 {
        CountLoopSkips(walls, dm, g, p, depth, k, count);
      } else {
        count, g := DescendInto(walls, x, y, k, dm, memo, depth, count, g, goal);
        if count >= 2 {
          g := Remember(memo, g, x, y, count);
          return count, g;
        }
      }
    }
    g := Remember(memo, g, x, y, count);
  }

  /** Store a count in the memo array, and in the grid that mirrors it. */
  method Remember(memo: array2<int>, ghost g0: Grid, x: int, y: int, v: int) returns (ghost g: Grid)
    requires ValidCell(x, y) && memo.Length0 == 9 && memo.Length1 == 9 && Holds(memo, g0)
    modifies memo
    ensures g == Set(g0, Pos(x, y), v) && Holds(memo, g)
  {
    memo[y, x] := v;
    g := Set(g0, Pos(x, y), v);
    GetSet(g0, Pos(x, y), v);
    forall j, i | 0 <= j < 9 && 0 <= i < 9
      ensures memo[j, i] == g[j][i]
    {
      assert g[j][i] == Get(g, Pos(i, j));
    }
  }

  /** The routes of the neighbour in direction `k`, one step closer, added
      to those found so far. */
  method DescendInto(walls: Walls, x: int, y: int, k: int, dm: Grid, memo: array2<int>, depth: nat, count0: int,
                     ghost g0: Grid, ghost goal: (Grid, int))
    returns (count: int, ghost g: Grid)
    requires ValidCell(x, y) && 0 <= k < 4 && depth <= DEPTH_LIMIT && Descends(walls, dm, Pos(x, y), k)
    requires memo.Length0 == 9 && memo.Length1 == 9 && Holds(memo, g0)
    requires CountLoop(walls, dm, g0, Pos(x, y), depth, k, count0) == goal
    modifies memo
    ensures Holds(memo, g)
    ensures count >= 2 ==> goal == (Set(g, Pos(x, y), count), count)
    ensures count < 2 ==> CountLoop(walls, dm, g, Pos(x, y), depth, k + 1, count) == goal
    decreases DEPTH_LIMIT + 1 - depth, 0, 0
  {
    var nx, ny := x + DX(k), y + DY(k);
    var sub;
    sub, g := CountPathsRecursive(walls, nx, ny, dm, memo, depth + 1, g0);
    CountLoopDescends(walls, dm, g0, Pos(x, y), depth, k, count0, g, sub, goal);
    count := count0 + sub;
  }

  /** One pass of the direction loop through a direction that does not
      descend. */
  lemma CountLoopSkips(walls: Walls, dm: Grid, memo: Grid, p: Pos, depth: nat, k: int, count: int)
    requires ValidPos(p) && 0 <= k < 4 && depth <= DEPTH_LIMIT && !Descends(walls, dm, p, k)
    ensures CountLoop(walls, dm, memo, p, depth, k, count) == CountLoop(walls, dm, memo, p, depth, k + 1, count)
  {
  }

  /** One pass of the direction loop through a direction that descends. */
  lemma CountLoopDescends(walls: Walls, dm: Grid, memo: Grid, p: Pos, depth: nat, k: int, count: int, memo': Grid, sub: int,
                          goal: (Grid, int))
    requires ValidPos(p) && 0 <= k < 4 && depth <= DEPTH_LIMIT && Descends(walls, dm, p, k)
    requires (memo', sub) == CountRec(walls, dm, memo, Neighbor(p, k), depth + 1)
    requires CountLoop(walls, dm, memo, p, depth, k, count) == goal
    ensures count + sub >= 2 ==> goal == (Set(memo', p, count + sub), count + sub)
    ensures count + sub < 2 ==> CountLoop(walls, dm, memo', p, depth, k + 1, count + sub) == goal
  {
    if count + sub >= 2 {
      assert goal == (Set(memo', p, count + sub), count + sub);
    } else {
      assert goal == CountLoop(walls, dm, memo', p, depth, k + 1, count + sub);
    }
  }
}

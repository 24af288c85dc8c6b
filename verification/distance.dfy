/** The distance oracle: a breadth-first search outward from a goal row that
    labels every cell with its step count to that row (-1 when walls cut it
    off), and the shortest path read back from that labelling. */
module Distance {
  import opened Wrappers
  import opened Geometry

  /** A 9x9 grid of integers indexed `grid[y][x]`. */
  type Grid = d: seq<seq<int>> | |d| == 9 && forall i :: 0 <= i < |d| ==> |d[i]| == 9
    witness seq(9, i => seq(9, j => -1))

  function Get(d: Grid, p: Pos): int
    requires ValidPos(p)
  {
    d[p.y][p.x]
  }

  function Set(d: Grid, p: Pos, v: int): Grid
    requires ValidPos(p)
  {
    d[p.y := d[p.y][p.x := v]]
  }

  /** Writing one cell changes that cell and no other. */
  lemma GetSet(d: Grid, p: Pos, v: int)
    requires ValidPos(p)
    ensures forall q {:trigger Get(Set(d, p, v), q)} :: ValidPos(q) ==> Get(Set(d, p, v), q) == if q == p then v else Get(d, q)
  {
  }

  /** The grid with every cell marked -1. */
  function BlankGrid(): Grid {
    seq(9, y => seq(9, x => -1))
  }

  /** Two grids that agree on every cell are equal. */
  lemma GridExt(d1: Grid, d2: Grid)
    requires forall p :: ValidPos(p) ==> Get(d1, p) == Get(d2, p)
    ensures d1 == d2
  {
    forall y | 0 <= y < 9
      ensures d1[y] == d2[y]
    {
      forall x | 0 <= x < 9
        ensures d1[y][x] == d2[y][x]
      {
        assert Get(d1, Pos(x, y)) == Get(d2, Pos(x, y));
      }
    }
  }

  /** Every cell of the board. */
  function AllCells(): (s: set<Pos>)
    ensures forall p {:trigger p in s} :: p in s <==> ValidPos(p)
  {
    var s := set x, y | 0 <= x < 9 && 0 <= y < 9 :: Pos(x, y);
    assert forall p :: ValidPos(p) ==> p == Pos(p.x, p.y);
    s
  }

  /** The cells still marked -1; the search only ever shrinks this set. */
  function Unassigned(d: Grid): set<Pos> {
    set p | p in AllCells() && Get(d, p) == -1
  }

  // ---------------------------------------------------------------------
  // The search, written as the loop runs

  /** The cells of row `goalY`, left to right: the sources of the search. */
  function GoalRowCells(goalY: int): seq<Pos> {
    seq(9, x => Pos(x, goalY))
  }

  /** Every cell -1 except the goal row, which is 0. */
  function InitialDistances(goalY: int): Grid {
    seq(9, y => seq(9, x => if y == goalY then 0 else -1))
  }

  /** Queued cells are on the board and already labelled. */
  predicate QueueOk(d: Grid, q: seq<Pos>) {
    forall i :: 0 <= i < |q| ==> ValidPos(q[i]) && Get(d, q[i]) >= 0
  }

  /** One direction of the inner loop: the neighbour of `c` in direction `k`
      is labelled `cd + 1` and queued when it is on the board, still -1 and
      not walled off from `c`. */
  function Visit(walls: Walls, c: Pos, cd: int, k: int, d: Grid, q: seq<Pos>): (r: (Grid, seq<Pos>))
    requires ValidPos(c) && cd >= 0
    requires QueueOk(d, q)
    ensures QueueOk(r.0, r.1)
  {
    var n := Neighbor(c, k);
    if ValidPos(n) && Get(d, n) == -1 && !IsBlocked(walls, c.x, c.y, n.x, n.y) then
      (Set(d, n, cd + 1), q + [n])
    else
      (d, q)
  }

  /** A visit either changes nothing or labels one more cell. */
  lemma VisitProgress(walls: Walls, c: Pos, cd: int, k: int, d: Grid, q: seq<Pos>)
    requires ValidPos(c) && cd >= 0
    requires QueueOk(d, q)
    ensures var r := Visit(walls, c, cd, k, d, q); r == (d, q) || Unassigned(r.0) < Unassigned(d)
  {
    var n := Neighbor(c, k);
    if ValidPos(n) && Get(d, n) == -1 && !IsBlocked(walls, c.x, c.y, n.x, n.y) {
      var d' := Set(d, n, cd + 1);
      assert n in Unassigned(d) && n !in Unassigned(d');
    }
  }

  /** Directions `k`, ..., 3 of the inner loop. */
  function ExpandFrom(walls: Walls, c: Pos, cd: int, k: int, d: Grid, q: seq<Pos>): (r: (Grid, seq<Pos>))
    requires ValidPos(c) && cd >= 0 && 0 <= k <= 4
    requires QueueOk(d, q)
    ensures QueueOk(r.0, r.1)
    decreases 4 - k
  {
    if k == 4 then (d, q)
    else
      var v := Visit(walls, c, cd, k, d, q);
      ExpandFrom(walls, c, cd, k + 1, v.0, v.1)
  }

  /** Expanding a cell either changes nothing or labels more cells. */
  lemma {:induction false} ExpandProgress(walls: Walls, c: Pos, cd: int, k: int, d: Grid, q: seq<Pos>)
    requires ValidPos(c) && cd >= 0 && 0 <= k <= 4
    requires QueueOk(d, q)
    ensures var r := ExpandFrom(walls, c, cd, k, d, q); r == (d, q) || Unassigned(r.0) < Unassigned(d)
    decreases 4 - k
  {
    if k < 4 {
      VisitProgress(walls, c, cd, k, d, q);
      var v := Visit(walls, c, cd, k, d, q);
      ExpandProgress(walls, c, cd, k + 1, v.0, v.1);
    }
  }

  /** The outer loop: dequeue the head and expand it, until the queue is
      empty. */
  function Bfs(walls: Walls, q: seq<Pos>, d: Grid): Grid
    requires QueueOk(d, q)
    decreases Unassigned(d), |q|
  {
    if |q| == 0 then d
    else
      var r := ExpandFrom(walls, q[0], Get(d, q[0]), 0, d, q[1..]);
      ExpandProgress(walls, q[0], Get(d, q[0]), 0, d, q[1..]);
      Bfs(walls, r.1, r.0)
  }

  /** One step of the inner loop, unfolded. */
  lemma ExpandFromStep(walls: Walls, c: Pos, cd: int, k: int, d: Grid, q: seq<Pos>)
    requires ValidPos(c) && cd >= 0 && 0 <= k < 4
    requires QueueOk(d, q)
    ensures var n := Neighbor(c, k);
      ExpandFrom(walls, c, cd, k, d, q) ==
        if ValidPos(n) && Get(d, n) == -1 && !IsBlocked(walls, c.x, c.y, n.x, n.y)
        then ExpandFrom(walls, c, cd, k + 1, Set(d, n, cd + 1), q + [n])
        else ExpandFrom(walls, c, cd, k + 1, d, q)
  {
  }

  /** One step of the outer loop, unfolded. */
  lemma BfsUnfold(walls: Walls, q: seq<Pos>, d: Grid)
    requires QueueOk(d, q) && |q| > 0
    ensures ValidPos(q[0]) && Get(d, q[0]) >= 0 && QueueOk(d, q[1..])
    ensures Bfs(walls, q, d) == var r := ExpandFrom(walls, q[0], Get(d, q[0]), 0, d, q[1..]); Bfs(walls, r.1, r.0)
  {
  }

  /** The search towards row `goalY`, started from the whole goal row. */
  function Search(walls: Walls, goalY: int): Grid
    requires 0 <= goalY < 9
  {
    Bfs(walls, GoalRowCells(goalY), InitialDistances(goalY))
  }

  // ---------------------------------------------------------------------
  // What a distance map is

  /** From `p`, direction `k` leads to a cell one closer to the goal that the
      search reached `p` from. */
  ghost predicate StepsDown(walls: Walls, d: Grid, p: Pos, k: int)
    requires ValidPos(p)
  {
    var n := Neighbor(p, k);
    OpenStep(walls, n, p) && Get(d, n) == Get(d, p) - 1
  }

  ghost predicate HasPredecessor(walls: Walls, d: Grid, p: Pos)
    requires ValidPos(p)
  {
    exists k :: 0 <= k < 4 && StepsDown(walls, d, p, k)
  }

  /** The open neighbour of `p` in direction `k`, if any, is labelled and
      at most one further than `p`. */
  ghost predicate HandledAt(walls: Walls, d: Grid, p: Pos, k: int)
    requires ValidPos(p)
  {
    var n := Neighbor(p, k);
    OpenStep(walls, p, n) ==> 0 <= Get(d, n) <= Get(d, p) + 1
  }

  ghost predicate ClosedAt(walls: Walls, d: Grid, p: Pos)
    requires ValidPos(p)
  {
    forall k :: 0 <= k < 4 ==> HandledAt(walls, d, p, k)
  }

  /** Labels are -1 or more, the goal row is 0, and every other labelled
      cell has a neighbour one step closer. */
  ghost predicate CellFacts(walls: Walls, goalY: int, d: Grid) {
    && (forall p {:trigger Get(d, p)} :: ValidPos(p) ==> Get(d, p) >= -1)
    && (forall p {:trigger Get(d, p)} :: ValidPos(p) && p.y == goalY ==> Get(d, p) == 0)
    && (forall p {:trigger HasPredecessor(walls, d, p)} :: ValidPos(p) && p.y != goalY && Get(d, p) >= 0 ==>
          Get(d, p) > 0 && HasPredecessor(walls, d, p))
  }

  /** `d` labels each cell with its number of steps to row `goalY`, -1 when
      no path exists: the goal row is 0, every other labelled cell is one
      more than some open neighbour, and no open step out of a labelled cell
      leads to a cell that is unlabelled or more than one further. */
  ghost predicate IsDistanceMap(walls: Walls, goalY: int, d: Grid) {
    && CellFacts(walls, goalY, d)
    && (forall p {:trigger ClosedAt(walls, d, p)} :: ValidPos(p) && Get(d, p) >= 0 ==> ClosedAt(walls, d, p))
  }

  /** The characterisation fixes the map: a labelling that satisfies it in
      one map is bounded by the other. */
  lemma {:induction false} DistanceMapLe(walls: Walls, goalY: int, d1: Grid, d2: Grid, p: Pos)
    requires IsDistanceMap(walls, goalY, d1) && IsDistanceMap(walls, goalY, d2)
    requires ValidPos(p) && Get(d1, p) >= 0
    ensures 0 <= Get(d2, p) <= Get(d1, p)
    decreases Get(d1, p)
  {
    if p.y != goalY {
      assert HasPredecessor(walls, d1, p);
      var k :| 0 <= k < 4 && StepsDown(walls, d1, p, k);
      var n := Neighbor(p, k);
      DistanceMapLe(walls, goalY, d1, d2, n);
      var j := Opposite(k);
      assert Neighbor(n, j) == p;
      assert ClosedAt(walls, d2, n);
      assert HandledAt(walls, d2, n, j);
    }
  }

  /** At most one grid satisfies the characterisation. */
  lemma DistanceMapUnique(walls: Walls, goalY: int, d1: Grid, d2: Grid)
    requires IsDistanceMap(walls, goalY, d1) && IsDistanceMap(walls, goalY, d2)
    ensures d1 == d2
  {
    forall p | ValidPos(p)
      ensures Get(d1, p) == Get(d2, p)
    {
      if Get(d1, p) >= 0 {
        DistanceMapLe(walls, goalY, d1, d2, p);
        DistanceMapLe(walls, goalY, d2, d1, p);
      } else if Get(d2, p) >= 0 {
        DistanceMapLe(walls, goalY, d2, d1, p);
      }
    }
    GridExt(d1, d2);
  }

  // ---------------------------------------------------------------------
  // The search computes a distance map

  /** The queue is nondecreasing and spans at most one label. */
  ghost predicate QueueSorted(d: Grid, q: seq<Pos>)
    requires QueueOk(d, q)
  {
    && (forall i, j :: 0 <= i <= j < |q| ==> Get(d, q[i]) <= Get(d, q[j]))
    && (|q| > 0 ==> Get(d, q[|q| - 1]) <= Get(d, q[0]) + 1)
  }

  /** Expanded cells are closed and labelled no further than the head. */
  ghost predicate DoneBelowHead(walls: Walls, d: Grid, q: seq<Pos>, done: set<Pos>)
    requires QueueOk(d, q)
  {
    forall p :: p in done ==>
      ValidPos(p) && Get(d, p) >= 0 && (|q| > 0 ==> Get(d, p) <= Get(d, q[0])) && ClosedAt(walls, d, p)
  }

  /** The invariant of the outer loop, with `done` the expanded cells. */
  ghost predicate BfsInv(walls: Walls, goalY: int, q: seq<Pos>, d: Grid, done: set<Pos>) {
    && 0 <= goalY < 9
    && CellFacts(walls, goalY, d)
    && QueueOk(d, q)
    && QueueSorted(d, q)
    && DoneBelowHead(walls, d, q, done)
    && (forall p {:trigger Get(d, p)} :: ValidPos(p) && Get(d, p) >= 0 ==> p in done || p in q)
  }

  /** Queued cells are labelled between the label of `c` and one more, in
      nondecreasing order. */
  ghost predicate QueueBand(d: Grid, c: Pos, q: seq<Pos>)
    requires ValidPos(c)
  {
    && QueueOk(d, q)
    && (forall i, j :: 0 <= i <= j < |q| ==> Get(d, q[i]) <= Get(d, q[j]))
    && (forall i :: 0 <= i < |q| ==> Get(d, c) <= Get(d, q[i]) <= Get(d, c) + 1)
  }

  /** Expanded cells are closed and labelled no further than `c`. */
  ghost predicate DoneBelow(walls: Walls, d: Grid, c: Pos, done: set<Pos>)
    requires ValidPos(c)
  {
    forall p :: p in done ==> ValidPos(p) && Get(d, p) >= 0 && Get(d, p) <= Get(d, c) && ClosedAt(walls, d, p)
  }

  ghost predicate HandledUpTo(walls: Walls, d: Grid, c: Pos, k: int)
    requires ValidPos(c)
  {
    forall j :: 0 <= j < k ==> HandledAt(walls, d, c, j)
  }

  /** Every labelled cell is expanded, queued or being expanded. */
  ghost predicate Covered(d: Grid, c: Pos, q: seq<Pos>, done: set<Pos>) {
    forall p {:trigger Get(d, p)} :: ValidPos(p) && Get(d, p) >= 0 ==> p in done || p in q || p == c
  }

  /** The state in the middle of expanding `c`, directions below `k` done. */
  ghost predicate MidInv(walls: Walls, goalY: int, c: Pos, q: seq<Pos>, d: Grid, done: set<Pos>, k: int) {
    && 0 <= goalY < 9 && ValidPos(c) && Get(d, c) >= 0 && 0 <= k <= 4
    && CellFacts(walls, goalY, d)
    && QueueBand(d, c, q)
    && DoneBelow(walls, d, c, done)
    && HandledUpTo(walls, d, c, k)
    && Covered(d, c, q, done)
  }

  /** `d2` keeps every label `d1` has set. */
  ghost predicate Extends(d1: Grid, d2: Grid) {
    forall p {:trigger Get(d2, p)} :: ValidPos(p) && Get(d1, p) >= 0 ==> Get(d2, p) == Get(d1, p)
  }

  lemma HandledMono(walls: Walls, d1: Grid, d2: Grid, p: Pos, k: int)
    requires ValidPos(p) && Get(d1, p) >= 0 && Extends(d1, d2) && HandledAt(walls, d1, p, k)
    ensures HandledAt(walls, d2, p, k)
  {
  }

  lemma ClosedMono(walls: Walls, d1: Grid, d2: Grid, p: Pos)
    requires ValidPos(p) && Get(d1, p) >= 0 && Extends(d1, d2) && ClosedAt(walls, d1, p)
    ensures ClosedAt(walls, d2, p)
  {
    forall k | 0 <= k < 4
      ensures HandledAt(walls, d2, p, k)
    {
      HandledMono(walls, d1, d2, p, k);
    }
  }

  lemma PredMono(walls: Walls, d1: Grid, d2: Grid, p: Pos)
    requires ValidPos(p) && Get(d1, p) > 0 && Extends(d1, d2) && HasPredecessor(walls, d1, p)
    ensures HasPredecessor(walls, d2, p)
  {
    var k :| 0 <= k < 4 && StepsDown(walls, d1, p, k);
    assert StepsDown(walls, d2, p, k);
  }

  /** Labelling a fresh neighbour `n` of `c` keeps the cell facts. */
  lemma AssignCellFacts(walls: Walls, goalY: int, c: Pos, k: int, d: Grid)
    requires 0 <= goalY < 9 && ValidPos(c) && Get(d, c) >= 0 && 0 <= k < 4
    requires CellFacts(walls, goalY, d)
    requires var n := Neighbor(c, k); ValidPos(n) && Get(d, n) == -1 && !IsBlocked(walls, c.x, c.y, n.x, n.y)
    ensures var n := Neighbor(c, k); var d' := Set(d, n, Get(d, c) + 1);
      CellFacts(walls, goalY, d') && Extends(d, d')
  {
    var n := Neighbor(c, k);
    var d' := Set(d, n, Get(d, c) + 1);
    GetSet(d, n, Get(d, c) + 1);
    assert Extends(d, d');
    forall p | ValidPos(p) && p.y != goalY && Get(d', p) >= 0
      ensures Get(d', p) > 0 && HasPredecessor(walls, d', p)
    {
      if p == n {
        var j := Opposite(k);
        assert Neighbor(n, j) == c;
        assert StepsDown(walls, d', p, j);
      } else {
        assert HasPredecessor(walls, d, p);
        PredMono(walls, d, d', p);
      }
    }
  }

  lemma QueueBandAssign(d: Grid, c: Pos, q: seq<Pos>, n: Pos)
    requires ValidPos(c) && ValidPos(n) && Get(d, c) >= 0 && Get(d, n) == -1
    requires QueueBand(d, c, q)
    ensures QueueBand(Set(d, n, Get(d, c) + 1), c, q + [n])
  {
    var d' := Set(d, n, Get(d, c) + 1);
    GetSet(d, n, Get(d, c) + 1);
    var q' := q + [n];
    assert forall i :: 0 <= i < |q| ==> q'[i] == q[i] && Get(d', q[i]) == Get(d, q[i]);
  }

  lemma VisitAssignStep(walls: Walls, goalY: int, c: Pos, q: seq<Pos>, d: Grid, done: set<Pos>, k: int)
    requires MidInv(walls, goalY, c, q, d, done, k) && k < 4
    requires var n := Neighbor(c, k); ValidPos(n) && Get(d, n) == -1 && !IsBlocked(walls, c.x, c.y, n.x, n.y)
    ensures var n := Neighbor(c, k); var d' := Set(d, n, Get(d, c) + 1);
      MidInv(walls, goalY, c, q + [n], d', done, k + 1) && Get(d', c) == Get(d, c)
  {
    var n := Neighbor(c, k);
    var d' := Set(d, n, Get(d, c) + 1);
    GetSet(d, n, Get(d, c) + 1);
    var q' := q + [n];
    AssignCellFacts(walls, goalY, c, k, d);
    QueueBandAssign(d, c, q, n);
    forall p | p in done
      ensures ValidPos(p) && Get(d', p) >= 0 && Get(d', p) <= Get(d', c) && ClosedAt(walls, d', p)
    {
      ClosedMono(walls, d, d', p);
    }
    assert DoneBelow(walls, d', c, done);
    forall j | 0 <= j < k + 1
      ensures HandledAt(walls, d', c, j)
    {
      if j < k {
        HandledMono(walls, d, d', c, j);
      }
    }
    assert HandledUpTo(walls, d', c, k + 1);
    assert Covered(d', c, q', done) by {
      forall p | ValidPos(p) && Get(d', p) >= 0
        ensures p in done || p in q' || p == c
      {
        if p != n {
          assert p in done || p in q || p == c;
        }
      }
    }
  }

  lemma VisitSkipStep(walls: Walls, goalY: int, c: Pos, q: seq<Pos>, d: Grid, done: set<Pos>, k: int)
    requires MidInv(walls, goalY, c, q, d, done, k) && k < 4
    requires var n := Neighbor(c, k); !(ValidPos(n) && Get(d, n) == -1 && !IsBlocked(walls, c.x, c.y, n.x, n.y))
    ensures MidInv(walls, goalY, c, q, d, done, k + 1)
  {
    var n := Neighbor(c, k);
    if OpenStep(walls, c, n) {
      if n in q {
        var i :| 0 <= i < |q| && q[i] == n;
      }
    }
    assert HandledAt(walls, d, c, k);
  }

  lemma VisitStep(walls: Walls, goalY: int, c: Pos, q: seq<Pos>, d: Grid, done: set<Pos>, k: int)
    requires MidInv(walls, goalY, c, q, d, done, k) && k < 4
    ensures var r := Visit(walls, c, Get(d, c), k, d, q);
      MidInv(walls, goalY, c, r.1, r.0, done, k + 1) && Get(r.0, c) == Get(d, c)
  {
    var n := Neighbor(c, k);
    if ValidPos(n) && Get(d, n) == -1 && !IsBlocked(walls, c.x, c.y, n.x, n.y) {
      assert Visit(walls, c, Get(d, c), k, d, q) == (Set(d, n, Get(d, c) + 1), q + [n]);
      VisitAssignStep(walls, goalY, c, q, d, done, k);
    } else {
      assert Visit(walls, c, Get(d, c), k, d, q) == (d, q);
      VisitSkipStep(walls, goalY, c, q, d, done, k);
    }
  }

  lemma {:induction false} ExpandInv(walls: Walls, goalY: int, c: Pos, cd: int, q: seq<Pos>, d: Grid, done: set<Pos>, k: int)
    requires MidInv(walls, goalY, c, q, d, done, k) && cd == Get(d, c)
    ensures var r := ExpandFrom(walls, c, cd, k, d, q);
      MidInv(walls, goalY, c, r.1, r.0, done, 4) && Get(r.0, c) == cd
    decreases 4 - k
  {
    if k < 4 {
      VisitStep(walls, goalY, c, q, d, done, k);
      var v := Visit(walls, c, cd, k, d, q);
      ExpandInv(walls, goalY, c, cd, v.1, v.0, done, k + 1);
    }
  }

  /** Dequeuing the head starts its expansion. */
  lemma BfsToMid(walls: Walls, goalY: int, q: seq<Pos>, d: Grid, done: set<Pos>)
    requires BfsInv(walls, goalY, q, d, done) && |q| > 0
    ensures MidInv(walls, goalY, q[0], q[1..], d, done, 0)
  {
    var c := q[0];
    var q1 := q[1..];
    assert forall i :: 0 <= i < |q1| ==> q1[i] == q[i + 1];
    assert QueueBand(d, c, q1);
    assert Covered(d, c, q1, done) by {
      forall p | ValidPos(p) && Get(d, p) >= 0
        ensures p in done || p in q1 || p == c
      {
        if p in q {
          var i :| 0 <= i < |q| && q[i] == p;
          if i > 0 {
            assert q1[i - 1] == p;
          }
        }
      }
    }
  }

  /** A fully expanded cell joins the expanded set. */
  lemma MidToBfs(walls: Walls, goalY: int, c: Pos, q: seq<Pos>, d: Grid, done: set<Pos>)
    requires MidInv(walls, goalY, c, q, d, done, 4)
    ensures BfsInv(walls, goalY, q, d, done + {c})
  {
    assert ClosedAt(walls, d, c) by {
      assert HandledUpTo(walls, d, c, 4);
    }
    if |q| > 0 {
      assert Get(d, q[0]) >= Get(d, c);
    }
    assert DoneBelowHead(walls, d, q, done + {c});
  }

  lemma BfsStep(walls: Walls, goalY: int, q: seq<Pos>, d: Grid, done: set<Pos>)
    requires BfsInv(walls, goalY, q, d, done) && |q| > 0
    ensures var r := ExpandFrom(walls, q[0], Get(d, q[0]), 0, d, q[1..]);
      BfsInv(walls, goalY, r.1, r.0, done + {q[0]})
  {
    BfsToMid(walls, goalY, q, d, done);
    ExpandInv(walls, goalY, q[0], Get(d, q[0]), q[1..], d, done, 0);
    var r := ExpandFrom(walls, q[0], Get(d, q[0]), 0, d, q[1..]);
    MidToBfs(walls, goalY, q[0], r.1, r.0, done);
  }

  /** With the queue empty, every labelled cell has been expanded. */
  lemma BfsDone(walls: Walls, goalY: int, d: Grid, done: set<Pos>)
    requires BfsInv(walls, goalY, [], d, done)
    ensures IsDistanceMap(walls, goalY, d)
  {
    forall p | ValidPos(p) && Get(d, p) >= 0
      ensures ClosedAt(walls, d, p)
    {
      assert p in done;
    }
  }

  lemma {:induction false} BfsCorrect(walls: Walls, goalY: int, q: seq<Pos>, d: Grid, done: set<Pos>)
    requires BfsInv(walls, goalY, q, d, done)
    ensures IsDistanceMap(walls, goalY, Bfs(walls, q, d))
    decreases Unassigned(d), |q|
  {
    if |q| == 0 {
      BfsDone(walls, goalY, d, done);
    } else {
      BfsStep(walls, goalY, q, d, done);
      var r := ExpandFrom(walls, q[0], Get(d, q[0]), 0, d, q[1..]);
      ExpandProgress(walls, q[0], Get(d, q[0]), 0, d, q[1..]);

      BfsCorrect(walls, goalY, r.1, r.0, done + {q[0]});
    }
  }

  /** The search's result satisfies the characterisation. */
  lemma SearchIsDistanceMap(walls: Walls, goalY: int)
    requires 0 <= goalY < 9
    ensures IsDistanceMap(walls, goalY, Search(walls, goalY))
  {
    var q := GoalRowCells(goalY);
    var d := InitialDistances(goalY);
    forall p | ValidPos(p) && Get(d, p) >= 0
      ensures p in q
    {
      assert q[p.x] == p;
    }
    assert BfsInv(walls, goalY, q, d, {});
    BfsCorrect(walls, goalY, q, d, {});
  }

  /** The distance map towards row `goalY`: the one grid that satisfies the
      characterisation. */
  ghost function DistanceMap(walls: Walls, goalY: int): (d: Grid)
    requires 0 <= goalY < 9
    ensures IsDistanceMap(walls, goalY, d)
  {
    SearchIsDistanceMap(walls, goalY);
    var d :| IsDistanceMap(walls, goalY, d);
    d
  }

  /** The search computes the distance map. */
  lemma SearchComputesDistanceMap(walls: Walls, goalY: int)
    requires 0 <= goalY < 9
    ensures Search(walls, goalY) == DistanceMap(walls, goalY)
  {
    SearchIsDistanceMap(walls, goalY);
    DistanceMapUnique(walls, goalY, Search(walls, goalY), DistanceMap(walls, goalY));
  }

  /** The labels the map gives: at least -1, 0 exactly on the goal row. */
  lemma DistanceMapGoalRow(walls: Walls, goalY: int, p: Pos)
    requires 0 <= goalY < 9 && ValidPos(p)
    ensures Get(DistanceMap(walls, goalY), p) >= -1
    ensures Get(DistanceMap(walls, goalY), p) == 0 <==> p.y == goalY
  {
    if p.y != goalY && Get(DistanceMap(walls, goalY), p) >= 0 {
      assert HasPredecessor(walls, DistanceMap(walls, goalY), p);
    }
  }

  /** The number of rows between row `y` and row `goalY`. */
  function Gap(y: int, goalY: int): nat {
    if y >= goalY then y - goalY else goalY - y
  }

  /** The distance map of the empty board. */
  function RowGap(goalY: int): (e: Grid)
    ensures forall c {:trigger Get(e, c)} :: ValidPos(c) ==> Get(e, c) == Gap(c.y, goalY)
  {
    seq(9, y => seq(9, x => Gap(y, goalY)))
  }

  lemma RowGapIsDistanceMap(goalY: int)
    requires 0 <= goalY < 9
    ensures IsDistanceMap(EmptyWalls(), goalY, RowGap(goalY))
  {
    var w := EmptyWalls();
    var e := RowGap(goalY);
    forall c | ValidPos(c) && c.y != goalY && Get(e, c) >= 0
      ensures Get(e, c) > 0 && HasPredecessor(w, e, c)
    {
      if c.y > goalY {
        EmptyGridBlocksNothing(c.x, c.y - 1, c.x, c.y);
        assert StepsDown(w, e, c, 0);
      } else {
        EmptyGridBlocksNothing(c.x, c.y + 1, c.x, c.y);
        assert StepsDown(w, e, c, 1);
      }
    }
    forall c | ValidPos(c) && Get(e, c) >= 0
      ensures ClosedAt(w, e, c)
    {
      forall k | 0 <= k < 4
        ensures HandledAt(w, e, c, k)
      {
        var n := Neighbor(c, k);
        if ValidPos(n) {
          assert Get(e, n) == Gap(n.y, goalY) && Get(e, c) == Gap(c.y, goalY);
          assert n.y == c.y || n.y == c.y - 1 || n.y == c.y + 1;
        }
      }
    }
  }

  /** With no walls on the board, a cell's distance is the number of rows
      between it and the goal. */
  lemma EmptyBoardDistance(goalY: int, p: Pos)
    requires 0 <= goalY < 9 && ValidPos(p)
    ensures Get(DistanceMap(EmptyWalls(), goalY), p) == Gap(p.y, goalY)
  {
    assert DistanceMap(EmptyWalls(), goalY) == RowGap(goalY) by {
      RowGapIsDistanceMap(goalY);
      DistanceMapUnique(EmptyWalls(), goalY, RowGap(goalY), DistanceMap(EmptyWalls(), goalY));
    }
  }

  // ---------------------------------------------------------------------
  // The imperative search

  /** The grid after the first `x` goal-row cells are set to 0. */
  function InitPrefix(goalY: int, x: int): Grid {
    seq(9, y => seq(9, i => if y == goalY && i < x then 0 else -1))
  }

  lemma InitPrefixStep(goalY: int, x: int)
    requires 0 <= goalY < 9 && 0 <= x < 9
    ensures Set(InitPrefix(goalY, x), Pos(x, goalY), 0) == InitPrefix(goalY, x + 1)
  {
    GridExt(Set(InitPrefix(goalY, x), Pos(x, goalY), 0), InitPrefix(goalY, x + 1));
  }

  lemma InitPrefixDone(goalY: int)
    ensures InitPrefix(goalY, 9) == InitialDistances(goalY)
  {
    GridExt(InitPrefix(goalY, 9), InitialDistances(goalY));
  }

  /** Breadth-first search from every cell of row `goalY` at once. */
  method GetDistanceMap(walls: Walls, goalY: int) returns (distance: Grid)
    requires 0 <= goalY < 9
    ensures distance == DistanceMap(walls, goalY)
  {
    distance := seq(9, i => seq(9, j => -1));
    var queue: seq<Pos> := [];
    GridExt(distance, InitPrefix(goalY, 0));
    for x := 0 to BOARD_SIZE
      invariant distance == InitPrefix(goalY, x)
      invariant queue == GoalRowCells(goalY)[..x]
    {
      InitPrefixStep(goalY, x);
      distance := Set(distance, Pos(x, goalY), 0);
      queue := queue + [Pos(x, goalY)];
    }
    InitPrefixDone(goalY);
    assert queue == GoalRowCells(goalY);

    while |queue| > 0
      invariant QueueOk(distance, queue)
      invariant Bfs(walls, queue, distance) == Search(walls, goalY)
      decreases Unassigned(distance), |queue|
    {
      BfsUnfold(walls, queue, distance);
      ghost var d0 := distance;
      var current := queue[0];
      queue := queue[1..];
      ghost var q1 := queue;
      var currentDist := Get(distance, current);
      distance, queue := ExpandCell(walls, current, currentDist, distance, queue);
      ExpandProgress(walls, current, currentDist, 0, d0, q1);
    }
    SearchComputesDistanceMap(walls, goalY);
  }

  /** The four directions tried from the dequeued cell `current`. */
  method ExpandCell(walls: Walls, current: Pos, currentDist: int, distance0: Grid, queue0: seq<Pos>)
    returns (distance: Grid, queue: seq<Pos>)
    requires ValidPos(current) && currentDist >= 0 && QueueOk(distance0, queue0)
    ensures (distance, queue) == ExpandFrom(walls, current, currentDist, 0, distance0, queue0)
  {
    distance, queue := distance0, queue0;
    for k := 0 to 4
      invariant QueueOk(distance, queue)
      invariant ExpandFrom(walls, current, currentDist, k, distance, queue)
             == ExpandFrom(walls, current, currentDist, 0, distance0, queue0)
    {
      ExpandFromStep(walls, current, currentDist, k, distance, queue);
      var n := Neighbor(current, k);
      if !ValidCell(n.x, n.y) {
        continue;
      }
      if Get(distance, n) != -1 {
        continue;
      }
      if IsBlocked(walls, current.x, current.y, n.x, n.y) {
        continue;
      }
      distance := Set(distance, n, currentDist + 1);
      queue := queue + [n];
    }
  }

  // ---------------------------------------------------------------------
  // Shortest path

  /** `path` starts at `start`, ends on row `goalY`, and each step moves to
      an orthogonal neighbour without crossing a wall. */
  ghost predicate IsWalkToGoal(walls: Walls, goalY: int, start: Pos, path: seq<Pos>) {
    && |path| > 0 && path[0] == start && path[|path| - 1].y == goalY
    && (forall i :: 0 <= i < |path| ==> ValidPos(path[i]))
    && (forall i :: 0 < i < |path| ==> IsStep(walls, path[i - 1], path[i]))
  }

  ghost predicate IsStep(walls: Walls, a: Pos, b: Pos) {
    exists k :: 0 <= k < 4 && b == Neighbor(a, k) && OpenStep(walls, a, b)
  }

  /** No walk from `start` to the goal row takes fewer steps than the
      distance map says. */
  lemma {:induction false} WalkAtLeastDistance(walls: Walls, goalY: int, start: Pos, path: seq<Pos>)
    requires 0 <= goalY < 9
    requires IsWalkToGoal(walls, goalY, start, path)
    ensures 0 <= Get(DistanceMap(walls, goalY), start) <= |path| - 1
    decreases |path|
  {
    var d := DistanceMap(walls, goalY);
    if |path| > 1 {
      var rest := path[1..];
      assert forall i :: 0 < i < |rest| ==> rest[i - 1] == path[i] && rest[i] == path[i + 1];
      WalkAtLeastDistance(walls, goalY, path[1], rest);
      var k :| 0 <= k < 4 && path[1] == Neighbor(start, k) && OpenStep(walls, start, path[1]);
      var j := Opposite(k);
      assert Neighbor(path[1], j) == start;
      BlockedSymmetric(walls, start.x, start.y, path[1].x, path[1].y);
      assert ClosedAt(walls, d, path[1]);
      assert HandledAt(walls, d, path[1], j);
    }
  }

  /** Direction `k` from `c` is an open step to a cell labelled one less,
      tried in the order the game tries them. */
  predicate Descends(walls: Walls, dm: Grid, c: Pos, k: int)
    requires ValidPos(c)
  {
    var n := Neighbor(c, k);
    ValidCell(n.x, n.y) && !IsBlocked(walls, c.x, c.y, n.x, n.y) && Get(dm, n) == Get(dm, c) - 1
  }

  /** `b` is the neighbour of `a` in the first direction (up, down, left,
      right) that descends from `a`. */
  ghost predicate FirstDescentStep(walls: Walls, dm: Grid, a: Pos, b: Pos) {
    && ValidPos(a)
    && exists k :: 0 <= k < 4 && b == Neighbor(a, k) && Descends(walls, dm, a, k)
                   && forall j :: 0 <= j < k ==> !Descends(walls, dm, a, j)
  }

  /** A first-descent step is a step of a walk, one closer to the goal. */
  lemma FirstDescentIsStep(walls: Walls, dm: Grid, a: Pos, b: Pos)
    requires FirstDescentStep(walls, dm, a, b)
    ensures ValidPos(b) && IsStep(walls, a, b) && Get(dm, b) == Get(dm, a) - 1
  {
    var k :| 0 <= k < 4 && b == Neighbor(a, k) && Descends(walls, dm, a, k);
  }

  /** A path read back by first descents stays one closer to the goal per
      step when it is extended by one more first descent. */
  lemma DescentPathExtends(walls: Walls, dm: Grid, start: Pos, path: seq<Pos>, b: Pos)
    requires ValidPos(start) && |path| > 0 && forall i :: 0 <= i < |path| ==> ValidPos(path[i])
    requires forall i :: 0 <= i < |path| ==> Get(dm, path[i]) == Get(dm, start) - i
    requires forall i :: 0 < i < |path| ==> FirstDescentStep(walls, dm, path[i - 1], path[i])
    requires FirstDescentStep(walls, dm, path[|path| - 1], b)
    ensures ValidPos(b)
    ensures forall i :: 0 <= i < |path| + 1 ==> Get(dm, (path + [b])[i]) == Get(dm, start) - i
    ensures forall i :: 0 < i < |path| + 1 ==> FirstDescentStep(walls, dm, (path + [b])[i - 1], (path + [b])[i])
  {
    FirstDescentIsStep(walls, dm, path[|path| - 1], b);
  }

  /** The first direction (up, down, left, right) that descends from
      (cx, cy); one exists off the goal row. */
  method FirstDescent(walls: Walls, goalY: int, dm: Grid, cx: int, cy: int) returns (nx: int, ny: int)
    requires IsDistanceMap(walls, goalY, dm)
    requires ValidCell(cx, cy) && cy != goalY && Get(dm, Pos(cx, cy)) >= 0
    ensures FirstDescentStep(walls, dm, Pos(cx, cy), Pos(nx, ny))
    ensures ValidCell(nx, ny) && Get(dm, Pos(nx, ny)) >= 0
  {
    var cur := Pos(cx, cy);
    var currentDist := Get(dm, cur);
    assert HasPredecessor(walls, dm, cur);
    ghost var kw :| 0 <= kw < 4 && StepsDown(walls, dm, cur, kw);
    ghost var w := Neighbor(cur, kw);
    BlockedSymmetric(walls, cx, cy, w.x, w.y);
    assert Descends(walls, dm, cur, kw);
    for k := 0 to 4
      invariant k <= kw
      invariant forall j :: 0 <= j < k ==> !Descends(walls, dm, cur, j)
    {
      var n := Neighbor(cur, k);
      if !ValidCell(n.x, n.y) {
        continue;
      }
      if IsBlocked(walls, cx, cy, n.x, n.y) {
        continue;
      }
      if Get(dm, n) == currentDist - 1 {
        return n.x, n.y;
      }
    }
  }

  /** A shortest path from (x, y) to row `goalY`, read back from the
      distance map by always stepping to the first open neighbour (up, down,
      left, right) one closer to the goal; None when the goal row cannot be
      reached. */
  method GetShortestPath(walls: Walls, x: int, y: int, goalY: int) returns (r: Option<seq<Pos>>)
    requires ValidCell(x, y) && 0 <= goalY < 9
    ensures r.None? <==> Get(DistanceMap(walls, goalY), Pos(x, y)) == -1
    ensures r.Some? ==> IsWalkToGoal(walls, goalY, Pos(x, y), r.value)
    ensures r.Some? ==> |r.value| == Get(DistanceMap(walls, goalY), Pos(x, y)) + 1
    ensures r.Some? ==> forall i :: 0 <= i < |r.value| ==>
              Get(DistanceMap(walls, goalY), r.value[i]) == Get(DistanceMap(walls, goalY), Pos(x, y)) - i
    ensures r.Some? ==> forall i :: 0 < i < |r.value| ==>
              FirstDescentStep(walls, DistanceMap(walls, goalY), r.value[i - 1], r.value[i])
  {
    var distanceMap := GetDistanceMap(walls, goalY);
    if Get(distanceMap, Pos(x, y)) == -1 {
      return None;
    }
    var path := [Pos(x, y)];
    var cx, cy := x, y;
    while cy != goalY
      invariant ValidCell(cx, cy) && Get(distanceMap, Pos(cx, cy)) >= 0
      invariant |path| + Get(distanceMap, Pos(cx, cy)) == Get(distanceMap, Pos(x, y)) + 1
      invariant path[0] == Pos(x, y) && path[|path| - 1] == Pos(cx, cy)
      invariant forall i :: 0 <= i < |path| ==> ValidPos(path[i])
      invariant forall i :: 0 < i < |path| ==> IsStep(walls, path[i - 1], path[i])
      invariant forall i :: 0 <= i < |path| ==> Get(distanceMap, path[i]) == Get(distanceMap, Pos(x, y)) - i
      invariant forall i :: 0 < i < |path| ==> FirstDescentStep(walls, distanceMap, path[i - 1], path[i])
      decreases Get(distanceMap, Pos(cx, cy))
    {
      ghost var cur := Pos(cx, cy);
      cx, cy := FirstDescent(walls, goalY, distanceMap, cx, cy);
      FirstDescentIsStep(walls, distanceMap, cur, Pos(cx, cy));
      DescentPathExtends(walls, distanceMap, Pos(x, y), path, Pos(cx, cy));
      path := path + [Pos(cx, cy)];
    }
    return Some(path);
  }
}

/** The search worker's alpha-beta search: the moves of each node ordered by
    the heuristic first, the evaluation of the worker's own rules at the
    leaves, counters of the cutoffs of each side beside the node counters,
    and, at the root, a guard against stepping straight back to the cell the
    mover just left. */
module WorkerSearch {
  import opened Wrappers
  import opened Game
  import opened Board
  import opened Evaluation
  import opened Search
  import opened WorkerRules

  // ---------------------------------------------------------------------
  // The unpruned minimax value under the worker's rules

  /** Every move of `ms` is one the worker lists in `s`. */
  ghost predicate AllWorkerLegal(s: State, ms: seq<Move>)
    requires WellFormed(s)
  {
    forall m :: m in ms ==> m in WorkerLegalMoves(s)
  }

  /** The minimax value of `s` searched `depth` plies deep over the worker's
      legal moves, scored for `orig` by the worker's evaluation. */
  ghost function WorkerValue(s: State, depth: nat, isMax: bool, orig: PlayerIndex, p: EvalParams): real
    requires WellFormed(s)
    decreases depth, 2
  {
    var moves := WorkerLegalMoves(s);
    if IsLeaf(s, depth) || |moves| == 0 then WorkerEvaluate(s, orig, p)
    else Best(WorkerChildValues(s, moves, depth, isMax, orig, p), |moves|, isMax)
  }

  /** The values of the successors of the moves `ms`, in order. */
  ghost function WorkerChildValues(s: State, ms: seq<Move>, depth: nat, isMax: bool, orig: PlayerIndex, p: EvalParams): (vals: seq<real>)
    requires WellFormed(s) && 1 <= depth && AllWorkerLegal(s, ms)
    ensures |vals| == |ms|
    decreases depth, 1
  {
    seq(|ms|, k requires 0 <= k < |ms| => WorkerChildValue(s, ms[k], depth, isMax, orig, p))
  }

  /** The value of the successor of the legal move `m`. */
  ghost function WorkerChildValue(s: State, m: Move, depth: nat, isMax: bool, orig: PlayerIndex, p: EvalParams): real
    requires WellFormed(s) && 1 <= depth && m in WorkerLegalMoves(s)
    decreases depth, 0
  {
    WorkerLegalMoveKeepsWellFormed(s, m);
    WorkerValue(ApplyMoveToState(s, m), depth - 1, !isMax, orig, p)
  }

  /** Two lists holding the same values have the same best. */
  lemma BestOfSameValues(va: seq<real>, vb: seq<real>, isMax: bool)
    requires |va| >= 1 && |vb| >= 1
    requires forall i :: 0 <= i < |va| ==> va[i] in vb
    requires forall j :: 0 <= j < |vb| ==> vb[j] in va
    ensures Best(va, |va|, isMax) == Best(vb, |vb|, isMax)
  {
    var a, b := Best(va, |va|, isMax), Best(vb, |vb|, isMax);
    var i :| 0 <= i < |va| && va[i] == a;
    var j :| 0 <= j < |vb| && vb[j] == b;
    assert a in vb && b in va;
  }

  /** Searching the moves in another order does not change the best of
      their values. */
  lemma OrderKeepsBest(s: State, a: seq<Move>, b: seq<Move>, depth: nat, isMax: bool, orig: PlayerIndex, p: EvalParams)
    requires WellFormed(s) && 1 <= depth && AllWorkerLegal(s, b) && |b| >= 1
    requires multiset(a) == multiset(b)
    ensures AllWorkerLegal(s, a)
    ensures Best(WorkerChildValues(s, a, depth, isMax, orig, p), |a|, isMax)
         == Best(WorkerChildValues(s, b, depth, isMax, orig, p), |b|, isMax)
  {
    assert forall m :: m in a ==> m in multiset(b);
    var va, vb := WorkerChildValues(s, a, depth, isMax, orig, p), WorkerChildValues(s, b, depth, isMax, orig, p);
    assert |a| == |multiset(b)|;
    forall i | 0 <= i < |va|
      ensures va[i] in vb
    {
      assert a[i] in multiset(b);
      var j :| 0 <= j < |b| && b[j] == a[i];
      assert vb[j] == va[i];
    }
    forall j | 0 <= j < |vb|
      ensures vb[j] in va
    {
      assert b[j] in multiset(a);
      var i :| 0 <= i < |a| && a[i] == b[j];
      assert va[i] == vb[j];
    }
    BestOfSameValues(va, vb, isMax);
  }

  /** The order in which the worker searches the moves of `s`: its legal
      moves sorted by the heuristic. */
  ghost function SearchOrder(s: State): (o: seq<Move>)
    requires WellFormed(s)
    ensures AllWorkerLegal(s, o) && |o| == |WorkerLegalMoves(s)|
  {
    LegalMovesOrderable(s);
    var o := OrderedMoves(s, WorkerLegalMoves(s));
    assert forall m :: m in o ==> m in multiset(WorkerLegalMoves(s));
    assert |o| == |multiset(WorkerLegalMoves(s))|;
    o
  }

  /** The move the worker's search returns at an inner node: the first
      move, in the search order, whose successor's value is `score`. */
  ghost predicate WorkerFirstBestMove(s: State, depth: nat, isMax: bool, orig: PlayerIndex, p: EvalParams,
                                      move: Option<Move>, score: real)
    requires WellFormed(s)
  {
    && move.Some? && 1 <= depth
    && exists j :: 0 <= j < |SearchOrder(s)| && SearchOrder(s)[j] == move.value
                   && FirstAttains(WorkerChildValues(s, SearchOrder(s), depth, isMax, orig, p), j, score, isMax)
  }

  // ---------------------------------------------------------------------
  // Search statistics with cutoff counters

  /** The node counters and the cutoffs counted at maximising (beta) and
      minimising (alpha) nodes. */
  datatype WorkerStats = WorkerStats(nodes: Stats, betaCutoffs: nat, alphaCutoffs: nat)

  /** Fresh counters for a search `maxDepth` plies deep. */
  method ResetWorkerStats(maxDepth: nat) returns (st: WorkerStats)
    ensures Consistent(st.nodes) && st.nodes.maxDepth == maxDepth && st.nodes.totalNodes == 0
    ensures st.betaCutoffs == 0 && st.alphaCutoffs == 0
  {
    st := WorkerStats(ResetStats(maxDepth), 0, 0);
  }

  function Cutoffs(st: WorkerStats): int {
    st.betaCutoffs + st.alphaCutoffs
  }

  /** `st` continues `st0`: consistent, for the same search, with no
      counter lowered, and with at most `extra` more cutoffs than new
      expanded nodes. */
  predicate Extends(st0: WorkerStats, st: WorkerStats, extra: nat) {
    && Consistent(st.nodes) && st.nodes.maxDepth == st0.nodes.maxDepth
    && st.nodes.totalNodes >= st0.nodes.totalNodes
    && st.betaCutoffs >= st0.betaCutoffs && st.alphaCutoffs >= st0.alphaCutoffs
    && Cutoffs(st) - Cutoffs(st0) <= st.nodes.totalNodes - st0.nodes.totalNodes + extra
  }

  // ---------------------------------------------------------------------
  // The search

  /** Searches `s` to `depth` plies with the window (alpha, beta) as the
      game's search does, with three differences: the moves are the
      worker's, searched in the heuristic order; the scores are the
      worker's; and each window cutoff is counted, as a beta cutoff at a
      maximising node and an alpha cutoff at a minimising one. The ghost
      result `stc` is the counters before this node's own cutoff: a node
      with moves adds exactly one cutoff of its side to them when its
      window closed, and none otherwise. The ghost flag `withBest` changes
      nothing in the search: it only asks for the postcondition about the
      chosen move, which the root needs and the recursive calls do not. */
  method WorkerMinmax(s: State, depth: nat, alpha: Ext, beta: Ext, isMax: bool, orig: PlayerIndex,
                      threshold: Ext, p: EvalParams, st0: WorkerStats, ghost withBest: bool)
    returns (move: Option<Move>, score: real, st: WorkerStats, ghost stc: WorkerStats)
    requires WellFormed(s) && Consistent(st0.nodes) && depth <= st0.nodes.maxDepth
    ensures Extends(st0, st, 0) && Extends(st0, stc, 0)
    ensures IsLeaf(s, depth) ==> move.None? && score == WorkerEvaluate(s, orig, p) && st == st0
    ensures !IsLeaf(s, depth) && |WorkerLegalMoves(s)| == 0 ==> move.None? && score == WorkerEvaluate(s, orig, p)
    ensures !IsLeaf(s, depth) && |WorkerLegalMoves(s)| > 0 ==> move.Some? && move.value in WorkerLegalMoves(s)
    ensures threshold == PosInf && Less(alpha, beta) ==> FailSoft(alpha, beta, score, WorkerValue(s, depth, isMax, orig, p))
    ensures withBest && threshold == PosInf && Less(alpha, Fin(score)) && Less(Fin(score), beta) && move.Some? ==>
              WorkerFirstBestMove(s, depth, isMax, orig, p, move, score)
    ensures IsLeaf(s, depth) || |WorkerLegalMoves(s)| == 0 ==>
              st.betaCutoffs == st0.betaCutoffs && st.alphaCutoffs == st0.alphaCutoffs
    ensures !IsLeaf(s, depth) && |WorkerLegalMoves(s)| > 0 ==> st == WithCutoff(stc, isMax, WindowClosed(alpha, beta, score, isMax))
    decreases depth, 6
  {
    if depth == 0 || IsGameOver(s) {
      score := WorkerEvaluateState(s, orig, p);
      return None, score, st0, st0;
    }
    move, score, st, stc := WorkerExpand(s, depth, alpha, beta, isMax, orig, threshold, p, st0);
  }

  /** Whether the window of a node that ended with `score` is closed: for
      the maximiser, alpha raised to the score reaches beta; for the
      minimiser, beta lowered to the score reaches alpha. */
  predicate WindowClosed(alpha: Ext, beta: Ext, score: real, isMax: bool) {
    if isMax then !Less(ExtMax(alpha, Fin(score)), beta) else !Less(alpha, ExtMin(beta, Fin(score)))
  }

  /** The counters `stc` with a node's own cutoff added when its window
      closed: a beta cutoff for the maximiser, an alpha cutoff for the
      minimiser. */
  function WithCutoff(stc: WorkerStats, isMax: bool, closed: bool): (st: WorkerStats)
    ensures st.nodes == stc.nodes
    ensures st.betaCutoffs == stc.betaCutoffs + (if closed && isMax then 1 else 0)
    ensures st.alphaCutoffs == stc.alphaCutoffs + (if closed && !isMax then 1 else 0)
  {
    if !closed then stc
    else if isMax then stc.(betaCutoffs := stc.betaCutoffs + 1)
    else stc.(alphaCutoffs := stc.alphaCutoffs + 1)
  }

  /** An inner node: counted, then scored as a leaf when the mover has no
      legal move, and otherwise searched over its ordered moves. */
  method WorkerExpand(s: State, depth: nat, alpha: Ext, beta: Ext, isMax: bool, orig: PlayerIndex,
                      threshold: Ext, p: EvalParams, st0: WorkerStats)
    returns (move: Option<Move>, score: real, st: WorkerStats, ghost stc: WorkerStats)
    requires WellFormed(s) && !IsLeaf(s, depth) && Consistent(st0.nodes) && depth <= st0.nodes.maxDepth
    ensures Extends(st0, st, 0) && Extends(st0, stc, 0)
    ensures |WorkerLegalMoves(s)| == 0 ==> move.None? && score == WorkerEvaluate(s, orig, p)
    ensures |WorkerLegalMoves(s)| > 0 ==> move.Some? && move.value in WorkerLegalMoves(s)
    ensures threshold == PosInf && Less(alpha, beta) ==> FailSoft(alpha, beta, score, WorkerValue(s, depth, isMax, orig, p))
    ensures threshold == PosInf && Less(alpha, Fin(score)) && Less(Fin(score), beta) && move.Some? ==>
              WorkerFirstBestMove(s, depth, isMax, orig, p, move, score)
    ensures |WorkerLegalMoves(s)| == 0 ==> st.betaCutoffs == st0.betaCutoffs && st.alphaCutoffs == st0.alphaCutoffs
    ensures |WorkerLegalMoves(s)| > 0 ==> st == WithCutoff(stc, isMax, WindowClosed(alpha, beta, score, isMax))
    decreases depth, 5
  {
    var nodes := CountNode(st0.nodes, depth);
    st := st0.(nodes := nodes);
    var moves := WorkerGetAllLegalMoves(s);
    if |moves| == 0 {
      score := WorkerEvaluateState(s, orig, p);
      return None, score, st, st;
    }
    LegalMovesOrderable(s);
    var ordered := OrderMoves(s, moves);
    assert ordered == SearchOrder(s);
    move, score, st, stc := WorkerSearchOrdered(s, ordered, depth, alpha, beta, isMax, orig, threshold, p, st);
    SearchOrderResult(s, depth, alpha, beta, isMax, orig, threshold, p, move, score);
  }

  /** The result of searching the moves in the search order is the
      node's: its score bounds the node's value, and its move is the first
      in that order to attain the score. */
  lemma SearchOrderResult(s: State, depth: nat, alpha: Ext, beta: Ext, isMax: bool, orig: PlayerIndex,
                          threshold: Ext, p: EvalParams, move: Option<Move>, score: real)
    requires WellFormed(s) && !IsLeaf(s, depth) && |WorkerLegalMoves(s)| > 0 && move.Some?
    requires threshold == PosInf && Less(alpha, beta) ==>
               FailSoft(alpha, beta, score, Best(WorkerChildValues(s, SearchOrder(s), depth, isMax, orig, p),
                                                 |SearchOrder(s)|, isMax))
    requires threshold == PosInf && Less(alpha, Fin(score)) && Less(Fin(score), beta) ==>
               exists j :: 0 <= j < |SearchOrder(s)| && SearchOrder(s)[j] == move.value
                           && FirstAttains(WorkerChildValues(s, SearchOrder(s), depth, isMax, orig, p), j, score, isMax)
    ensures threshold == PosInf && Less(alpha, beta) ==> FailSoft(alpha, beta, score, WorkerValue(s, depth, isMax, orig, p))
    ensures threshold == PosInf && Less(alpha, Fin(score)) && Less(Fin(score), beta) ==>
              WorkerFirstBestMove(s, depth, isMax, orig, p, move, score)
  {
    LegalMovesOrderable(s);
    OrderKeepsBest(s, SearchOrder(s), WorkerLegalMoves(s), depth, isMax, orig, p);
  }

  /** Every legal move of the worker can be scored for ordering. */
  lemma LegalMovesOrderable(s: State)
    requires WellFormed(s)
    ensures forall m :: m in WorkerLegalMoves(s) ==> Orderable(m)
  {
    forall m | m in WorkerLegalMoves(s)
      ensures Orderable(m)
    {
      WorkerLegalMoveKeepsWellFormed(s, m);
    }
  }

  /** The ordered moves searched by the maximiser's or the minimiser's
      loop. */
  method WorkerSearchOrdered(s: State, ms: seq<Move>, depth: nat, alpha: Ext, beta: Ext, isMax: bool, orig: PlayerIndex,
                             threshold: Ext, p: EvalParams, st0: WorkerStats)
    returns (move: Option<Move>, score: real, st: WorkerStats, ghost stc: WorkerStats)
    requires WellFormed(s) && 1 <= depth && AllWorkerLegal(s, ms) && |ms| > 0
    requires Consistent(st0.nodes) && depth <= st0.nodes.maxDepth
    ensures Extends(st0, st, 1) && Extends(st0, stc, 0)
    ensures st == WithCutoff(stc, isMax, WindowClosed(alpha, beta, score, isMax))
    ensures move.Some? && move.value in ms
    ensures threshold == PosInf && Less(alpha, beta) ==>
              FailSoft(alpha, beta, score, Best(WorkerChildValues(s, ms, depth, isMax, orig, p), |ms|, isMax))
    ensures threshold == PosInf && Less(alpha, Fin(score)) && Less(Fin(score), beta) ==>
              exists j :: 0 <= j < |ms| && ms[j] == move.value
                          && FirstAttains(WorkerChildValues(s, ms, depth, isMax, orig, p), j, score, isMax)
    decreases depth, 4
  {
    if isMax {
      move, score, st, stc := WorkerMaxOverMoves(s, ms, depth, alpha, beta, orig, threshold, p, st0);
    } else {
      move, score, st, stc := WorkerMinOverMoves(s, ms, depth, alpha, beta, orig, threshold, p, st0);
    }
  }

  /** The search of the successor of the legal move `m`. */
  method WorkerSearchChild(s: State, m: Move, depth: nat, alpha: Ext, beta: Ext, isMax: bool,
                           orig: PlayerIndex, threshold: Ext, p: EvalParams, st0: WorkerStats)
    returns (score: real, st: WorkerStats)
    requires WellFormed(s) && 1 <= depth && m in WorkerLegalMoves(s)
    requires Consistent(st0.nodes) && depth <= st0.nodes.maxDepth
    ensures Extends(st0, st, 0)
    ensures threshold == PosInf && Less(alpha, beta) ==>
              FailSoft(alpha, beta, score, WorkerChildValue(s, m, depth, isMax, orig, p))
    decreases depth, 0
  {
    WorkerLegalMoveKeepsWellFormed(s, m);
    var next := ApplyMoveToState(s, m);
    var _, r, st1, _ := WorkerMinmax(next, depth - 1, alpha, beta, !isMax, orig, threshold, p, st0, false);
    score, st := r, st1;
  }

  /** The search of the successor of the `k`-th move of `ms`, against the
      `k`-th of their values. */
  method WorkerSearchChildAt(s: State, ms: seq<Move>, k: nat, depth: nat, alpha: Ext, beta: Ext, isMax: bool,
                             orig: PlayerIndex, threshold: Ext, p: EvalParams, st0: WorkerStats)
    returns (score: real, st: WorkerStats)
    requires WellFormed(s) && 1 <= depth && AllWorkerLegal(s, ms) && k < |ms|
    requires Consistent(st0.nodes) && depth <= st0.nodes.maxDepth
    ensures Extends(st0, st, 0)
    ensures threshold == PosInf && Less(alpha, beta) ==>
              FailSoft(alpha, beta, score, WorkerChildValues(s, ms, depth, isMax, orig, p)[k])
    decreases depth, 1
  {
    score, st := WorkerSearchChild(s, ms[k], depth, alpha, beta, isMax, orig, threshold, p, st0);
    assert WorkerChildValues(s, ms, depth, isMax, orig, p)[k] == WorkerChildValue(s, ms[k], depth, isMax, orig, p);
  }

  /** The maximiser's loop state after the first `k` of the values `vals`
      of the moves `ms`: the counters extended, alpha raised to the best
      score so far, a best move of `ms` once one was searched, the window
      still open, and, with no threshold, the best score kept against the
      best of the values seen. */
  ghost predicate MaxLoopState(vals: seq<real>, ms: seq<Move>, alpha0: Ext, beta: Ext, threshold: Ext, st0: WorkerStats,
                               k: nat, maxScore: Ext, move: Option<Move>, alpha: Ext, st: WorkerStats, bestIdx: nat)
    requires k <= |vals| == |ms|
  {
    && Extends(st0, st, 0)
    && alpha == ExtMax(alpha0, maxScore)
    && (k == 0 <==> maxScore == NegInf)
    && (k > 0 ==> maxScore.Fin? && Less(alpha, beta))
    && (move.Some? <==> k > 0)
    && (move.Some? ==> move.value in ms)
    && (k > 0 && threshold == PosInf && Less(alpha0, beta) ==> MaxKeeps(alpha0, maxScore.r, Best(vals, k, true)))
    && (k > 0 && threshold == PosInf && Less(alpha0, maxScore) ==>
          bestIdx < k && ms[bestIdx] == move.value && FirstAttains(vals, bestIdx, maxScore.r, true))
  }

  /** The minimiser's loop state, mirrored. */
  ghost predicate MinLoopState(vals: seq<real>, ms: seq<Move>, alpha: Ext, beta0: Ext, threshold: Ext, st0: WorkerStats,
                               k: nat, minScore: Ext, move: Option<Move>, beta: Ext, st: WorkerStats, bestIdx: nat)
    requires k <= |vals| == |ms|
  {
    && Extends(st0, st, 0)
    && beta == ExtMin(beta0, minScore)
    && (k == 0 <==> minScore == PosInf)
    && (k > 0 ==> minScore.Fin? && Less(alpha, beta))
    && (move.Some? <==> k > 0)
    && (move.Some? ==> move.value in ms)
    && (k > 0 && threshold == PosInf && Less(alpha, beta0) ==> MinKeeps(beta0, minScore.r, Best(vals, k, false)))
    && (k > 0 && threshold == PosInf && Less(minScore, beta0) ==>
          bestIdx < k && ms[bestIdx] == move.value && FirstAttains(vals, bestIdx, minScore.r, false))
  }

  /** The maximiser's loop over the ordered moves. The ghost result `stc`
      is the counters after the last successor searched. */
  method WorkerMaxOverMoves(s: State, ms: seq<Move>, depth: nat, alpha0: Ext, beta: Ext, orig: PlayerIndex,
                            threshold: Ext, p: EvalParams, st0: WorkerStats)
    returns (move: Option<Move>, score: real, st: WorkerStats, ghost stc: WorkerStats)
    requires WellFormed(s) && 1 <= depth && AllWorkerLegal(s, ms) && |ms| > 0
    requires Consistent(st0.nodes) && depth <= st0.nodes.maxDepth
    ensures Extends(st0, st, 1) && Extends(st0, stc, 0)
    ensures st == WithCutoff(stc, true, WindowClosed(alpha0, beta, score, true))
    ensures move.Some? && move.value in ms
    ensures threshold == PosInf && Less(alpha0, beta) ==>
              FailSoft(alpha0, beta, score, Best(WorkerChildValues(s, ms, depth, true, orig, p), |ms|, true))
    ensures threshold == PosInf && Less(alpha0, Fin(score)) && Less(Fin(score), beta) ==>
              exists j :: 0 <= j < |ms| && ms[j] == move.value
                          && FirstAttains(WorkerChildValues(s, ms, depth, true, orig, p), j, score, true)
    decreases depth, 3
  {
    ghost var vals := WorkerChildValues(s, ms, depth, true, orig, p);
    var maxScore := NegInf;
    move := None;
    var alpha := alpha0;
    st := st0;
    var k := 0;
    ghost var bestIdx: nat := 0;
    while k < |ms|
      invariant k <= |ms|
      invariant MaxLoopState(vals, ms, alpha0, beta, threshold, st0, k, maxScore, move, alpha, st, bestIdx)
      decreases |ms| - k
    {
      var stop;
      maxScore, move, alpha, st, stop, bestIdx, stc := WorkerMaxStep(s, ms, k, depth, alpha0, beta, orig, threshold, p, st0,
                                                                    maxScore, move, alpha, st, bestIdx);
      if stop {
        return move, maxScore.r, st, stc;
      }
      k := k + 1;
    }
    score := maxScore.r;
    stc := st;
  }

  /** One pass of the maximiser's loop: the successor of the `k`-th move
      searched (its counters are `stc`), the best score, the best move and
      alpha updated, and `stop` when the window closed, counted as one beta
      cutoff, or the score reached the threshold. */
  method WorkerMaxStep(s: State, ms: seq<Move>, k: nat, depth: nat, alpha0: Ext, beta: Ext, orig: PlayerIndex,
                       threshold: Ext, p: EvalParams, st0: WorkerStats,
                       maxScore0: Ext, move0: Option<Move>, alpha1: Ext, st1: WorkerStats, ghost bestIdx0: nat)
    returns (maxScore: Ext, move: Option<Move>, alpha: Ext, st: WorkerStats, stop: bool, ghost bestIdx: nat, ghost stc: WorkerStats)
    requires WellFormed(s) && 1 <= depth && AllWorkerLegal(s, ms) && k < |ms|
    requires depth <= st0.nodes.maxDepth
    requires MaxLoopState(WorkerChildValues(s, ms, depth, true, orig, p), ms, alpha0, beta, threshold, st0,
                          k, maxScore0, move0, alpha1, st1, bestIdx0)
    ensures Extends(st1, stc, 0) && st == WithCutoff(stc, true, !Less(alpha, beta))
    ensures alpha == ExtMax(alpha0, maxScore)
    ensures !stop ==> MaxLoopState(WorkerChildValues(s, ms, depth, true, orig, p), ms, alpha0, beta, threshold, st0,
                                   k + 1, maxScore, move, alpha, st, bestIdx)
    ensures stop ==> Extends(st0, st, 1) && Extends(st0, stc, 0) && move.Some? && move.value in ms && maxScore.Fin?
    ensures stop && threshold == PosInf && Less(alpha0, beta) ==>
              FailSoft(alpha0, beta, maxScore.r, Best(WorkerChildValues(s, ms, depth, true, orig, p), |ms|, true))
    ensures stop && threshold == PosInf ==> !Less(alpha, beta)
    decreases depth, 2
  {
    ghost var vals := WorkerChildValues(s, ms, depth, true, orig, p);
    var m := ms[k];
    var r;
    r, st := WorkerSearchChildAt(s, ms, k, depth, alpha1, beta, true, orig, threshold, p, st1);
    stc := st;
    maxScore, move, bestIdx := maxScore0, move0, bestIdx0;
    if Less(maxScore, Fin(r)) {
      maxScore := Fin(r);
      move := Some(m);
      bestIdx := k;
    }
    alpha := ExtMax(alpha1, Fin(r));
    if !Less(alpha, beta) {
      st := st.(betaCutoffs := st.betaCutoffs + 1);
      if threshold == PosInf && Less(alpha0, beta) {
        MaxCutoff(vals, alpha0, beta, maxScore0, r, k);
      }
      return maxScore, move, alpha, st, true, bestIdx, stc;
    }
    if ReachesThreshold(r, threshold) {
      return maxScore, move, alpha, st, true, bestIdx, stc;
    }
    if threshold == PosInf && Less(alpha0, beta) {
      MaxContinue(vals, alpha0, beta, maxScore0, r, k);
      if bestIdx == k && Less(alpha0, maxScore) {
        MaxFirst(vals, alpha0, beta, maxScore0, r, k);
      }
    }
    stop := false;
  }

  /** The minimiser's loop over the ordered moves, mirrored. */
  method WorkerMinOverMoves(s: State, ms: seq<Move>, depth: nat, alpha: Ext, beta0: Ext, orig: PlayerIndex,
                            threshold: Ext, p: EvalParams, st0: WorkerStats)
    returns (move: Option<Move>, score: real, st: WorkerStats, ghost stc: WorkerStats)
    requires WellFormed(s) && 1 <= depth && AllWorkerLegal(s, ms) && |ms| > 0
    requires Consistent(st0.nodes) && depth <= st0.nodes.maxDepth
    ensures Extends(st0, st, 1) && Extends(st0, stc, 0)
    ensures st == WithCutoff(stc, false, WindowClosed(alpha, beta0, score, false))
    ensures move.Some? && move.value in ms
    ensures threshold == PosInf && Less(alpha, beta0) ==>
              FailSoft(alpha, beta0, score, Best(WorkerChildValues(s, ms, depth, false, orig, p), |ms|, false))
    ensures threshold == PosInf && Less(alpha, Fin(score)) && Less(Fin(score), beta0) ==>
              exists j :: 0 <= j < |ms| && ms[j] == move.value
                          && FirstAttains(WorkerChildValues(s, ms, depth, false, orig, p), j, score, false)
    decreases depth, 3
  {
    ghost var vals := WorkerChildValues(s, ms, depth, false, orig, p);
    var minScore := PosInf;
    move := None;
    var beta := beta0;
    st := st0;
    var k := 0;
    ghost var bestIdx: nat := 0;
    while k < |ms|
      invariant k <= |ms|
      invariant MinLoopState(vals, ms, alpha, beta0, threshold, st0, k, minScore, move, beta, st, bestIdx)
      decreases |ms| - k
    {
      var stop;
      minScore, move, beta, st, stop, bestIdx, stc := WorkerMinStep(s, ms, k, depth, alpha, beta0, orig, threshold, p, st0,
                                                                   minScore, move, beta, st, bestIdx);
      if stop {
        return move, minScore.r, st, stc;
      }
      k := k + 1;
    }
    score := minScore.r;
    stc := st;
  }

  /** One pass of the minimiser's loop, mirrored: a closed window counts as
      one alpha cutoff. */
  method WorkerMinStep(s: State, ms: seq<Move>, k: nat, depth: nat, alpha: Ext, beta0: Ext, orig: PlayerIndex,
                       threshold: Ext, p: EvalParams, st0: WorkerStats,
                       minScore0: Ext, move0: Option<Move>, beta1: Ext, st1: WorkerStats, ghost bestIdx0: nat)
    returns (minScore: Ext, move: Option<Move>, beta: Ext, st: WorkerStats, stop: bool, ghost bestIdx: nat, ghost stc: WorkerStats)
    requires WellFormed(s) && 1 <= depth && AllWorkerLegal(s, ms) && k < |ms|
    requires depth <= st0.nodes.maxDepth
    requires MinLoopState(WorkerChildValues(s, ms, depth, false, orig, p), ms, alpha, beta0, threshold, st0,
                          k, minScore0, move0, beta1, st1, bestIdx0)
    ensures Extends(st1, stc, 0) && st == WithCutoff(stc, false, !Less(alpha, beta))
    ensures beta == ExtMin(beta0, minScore)
    ensures !stop ==> MinLoopState(WorkerChildValues(s, ms, depth, false, orig, p), ms, alpha, beta0, threshold, st0,
                                   k + 1, minScore, move, beta, st, bestIdx)
    ensures stop ==> Extends(st0, st, 1) && Extends(st0, stc, 0) && move.Some? && move.value in ms && minScore.Fin?
    ensures stop && threshold == PosInf && Less(alpha, beta0) ==>
              FailSoft(alpha, beta0, minScore.r, Best(WorkerChildValues(s, ms, depth, false, orig, p), |ms|, false))
    ensures stop && threshold == PosInf ==> !Less(alpha, beta)
    decreases depth, 2
  {
    ghost var vals := WorkerChildValues(s, ms, depth, false, orig, p);
    var m := ms[k];
    var r;
    r, st := WorkerSearchChildAt(s, ms, k, depth, alpha, beta1, false, orig, threshold, p, st1);
    stc := st;
    minScore, move, bestIdx := minScore0, move0, bestIdx0;
    if Less(Fin(r), minScore) {
      minScore := Fin(r);
      move := Some(m);
      bestIdx := k;
    }
    beta := ExtMin(beta1, Fin(r));
    if !Less(alpha, beta) {
      st := st.(alphaCutoffs := st.alphaCutoffs + 1);
      if threshold == PosInf && Less(alpha, beta0) {
        MinCutoff(vals, alpha, beta0, minScore0, r, k);
      }
      return minScore, move, beta, st, true, bestIdx, stc;
    }
    if ReachesThreshold(r, threshold) {
      return minScore, move, beta, st, true, bestIdx, stc;
    }
    if threshold == PosInf && Less(alpha, beta0) {
      MinContinue(vals, alpha, beta0, minScore0, r, k);
      if bestIdx == k && Less(minScore, beta0) {
        MinFirst(vals, alpha, beta0, minScore0, r, k);
      }
    }
    stop := false;
  }

  // ---------------------------------------------------------------------
  // The reversal guard

  /** The last move of a player as the main thread reports it: a token move
      from a cell, or a wall. */
  datatype LastMove = TokenMoveFrom(fromX: int, fromY: int) | WallPlaced

  /** Whether `m` takes the token straight back to the cell `last` left. */
  predicate Reverses(m: Move, last: Option<LastMove>) {
    m.MoveTo? && last.Some? && last.value.TokenMoveFrom? && m.x == last.value.fromX && m.y == last.value.fromY
  }

  /** The one-ply score of a legal move: the state it leads to, evaluated
      for the mover by the worker's evaluation. */
  ghost function OnePly(s: State, m: Move, p: EvalParams): real
    requires WellFormed(s) && m in WorkerLegalMoves(s)
  {
    WorkerLegalMoveKeepsWellFormed(s, m);
    WorkerEvaluate(ApplyMoveToState(s, m), s.currentPlayer, p)
  }

  /** The moves of `ms` paired with their one-ply scores. */
  ghost function OnePlyScores(s: State, ms: seq<Move>, p: EvalParams): (c: seq<(Move, real)>)
    requires WellFormed(s) && AllWorkerLegal(s, ms)
    ensures |c| == |ms|
  {
    seq(|ms|, k requires 0 <= k < |ms| => (ms[k], OnePly(s, ms[k], p)))
  }

  /** The first scored move of `c` of highest score among those that do
      not reverse `last`; none when every move of `c` reverses it. */
  function BestAlternative(c: seq<(Move, real)>, last: Option<LastMove>): Option<(Move, real)>
    decreases |c|
  {
    if |c| == 0 then None
    else
      var prev := BestAlternative(c[..|c| - 1], last);
      var e := c[|c| - 1];
      if Reverses(e.0, last) then prev
      else if prev.None? || e.1 > prev.value.1 then Some(e)
      else prev
  }

  /** The best alternative exists exactly when some move of `c` does not
      reverse `last`; it is such an entry of `c`, and no such entry scores
      higher. */
  lemma {:induction false} BestAlternativeSpec(c: seq<(Move, real)>, last: Option<LastMove>)
    ensures var best := BestAlternative(c, last);
      && (best.None? <==> forall j :: 0 <= j < |c| ==> Reverses(c[j].0, last))
      && (best.Some? ==> best.value in c && !Reverses(best.value.0, last))
      && (best.Some? ==> forall j :: 0 <= j < |c| && !Reverses(c[j].0, last) ==> c[j].1 <= best.value.1)
    decreases |c|
  {
    if |c| > 0 {
      var init := c[..|c| - 1];
      BestAlternativeSpec(init, last);
      assert forall j :: 0 <= j < |init| ==> init[j] == c[j];
    }
  }

  /** Of several entries of highest score, the best alternative is the
      first. */
  lemma {:induction false} BestAlternativeFirst(c: seq<(Move, real)>, last: Option<LastMove>, i: nat)
    requires i < |c| && !Reverses(c[i].0, last)
    requires forall j :: 0 <= j < |c| && !Reverses(c[j].0, last) ==> c[j].1 <= c[i].1
    requires forall j :: 0 <= j < i && !Reverses(c[j].0, last) ==> c[j].1 < c[i].1
    ensures BestAlternative(c, last) == Some(c[i])
    decreases |c|
  {
    var init := c[..|c| - 1];
    assert forall j :: 0 <= j < |init| ==> init[j] == c[j];
    if i < |c| - 1 {
      BestAlternativeFirst(init, last, i);
    } else {
      BestAlternativeSpec(init, last);
    }
  }

  /** Some scored move of `c` that does not reverse `last` scores above
      `x`. */
  ghost predicate AlternativeAbove(c: seq<(Move, real)>, last: Option<LastMove>, x: real) {
    exists e :: e in c && !Reverses(e.0, last) && e.1 > x
  }

  /** An alternative above `x` exists exactly when the best alternative
      scores above `x`. */
  lemma BestAlternativeAbove(c: seq<(Move, real)>, last: Option<LastMove>, x: real)
    ensures var best := BestAlternative(c, last);
      AlternativeAbove(c, last, x) <==> best.Some? && best.value.1 > x
  {
    BestAlternativeSpec(c, last);
    if AlternativeAbove(c, last, x) {
      var e :| e in c && !Reverses(e.0, last) && e.1 > x;
      var j :| 0 <= j < |c| && c[j] == e;
    }
  }

  /** A scored legal move is a legal move with its one-ply score. */
  lemma OnePlyScoresMember(s: State, ms: seq<Move>, p: EvalParams, e: (Move, real))
    requires WellFormed(s) && AllWorkerLegal(s, ms) && e in OnePlyScores(s, ms, p)
    ensures e.0 in ms && e.0 in WorkerLegalMoves(s) && e.1 == OnePly(s, e.0, p)
  {
    var c := OnePlyScores(s, ms, p);
    var j :| 0 <= j < |c| && c[j] == e;
  }

  /** The state a legal move leads to, evaluated for the mover. */
  method ScoreOnePly(s: State, m: Move, p: EvalParams) returns (score: real)
    requires WellFormed(s) && m in WorkerLegalMoves(s)
    ensures score == OnePly(s, m, p)
  {
    WorkerLegalMoveKeepsWellFormed(s, m);
    var newState := ApplyMoveToState(s, m);
    score := WorkerEvaluateState(newState, s.currentPlayer, p);
  }

  /** Every legal move except the reversal, scored one ply deep, keeping
      the first of highest score. */
  method FindBestAlternative(s: State, last: Option<LastMove>, p: EvalParams) returns (best: Option<(Move, real)>)
    requires WellFormed(s)
    ensures best == BestAlternative(OnePlyScores(s, WorkerLegalMoves(s), p), last)
  {
    var moves := WorkerGetAllLegalMoves(s);
    ghost var c := OnePlyScores(s, moves, p);
    best := None;
    for k := 0 to |moves|
      invariant best == BestAlternative(c[..k], last)
    {
      best := AlternativeStep(s, moves, k, last, p, best);
    }
    assert c[..|moves|] == c;
  }

  /** One pass of the loop above: the `k`-th legal move, unless it is the
      reversal, scored and kept when it beats the best so far. */
  method AlternativeStep(s: State, moves: seq<Move>, k: nat, last: Option<LastMove>, p: EvalParams,
                         best0: Option<(Move, real)>) returns (best: Option<(Move, real)>)
    requires WellFormed(s) && AllWorkerLegal(s, moves) && k < |moves|
    requires best0 == BestAlternative(OnePlyScores(s, moves, p)[..k], last)
    ensures best == BestAlternative(OnePlyScores(s, moves, p)[..k + 1], last)
  {
    ghost var c := OnePlyScores(s, moves, p);
    assert c[..k + 1][..k] == c[..k];
    best := best0;
    var m := moves[k];
    if Reverses(m, last) {
      return;
    }
    var score := ScoreOnePly(s, m, p);
    assert c[k] == (m, score);
    if best.None? || score > best.value.1 {
      best := Some((m, score));
    }
  }

  /** `move` with `score` replaces a searched result scored `score0`: an
      entry of the scored moves `c` that does not reverse `last`, above
      `score0` less 20, and highest among such entries. */
  ghost predicate Replaces(c: seq<(Move, real)>, last: Option<LastMove>, score0: real, move: Option<Move>, score: real) {
    && move.Some? && (move.value, score) in c && !Reverses(move.value, last) && score > score0 - 20.0
    && forall e :: e in c && !Reverses(e.0, last) ==> e.1 <= score
  }

  /** When the searched move steps straight back to where the mover came
      from, the best other legal move by one-ply score replaces it if that
      score beats the searched score less 20. Otherwise the result stands. */
  method AvoidReversal(s: State, move0: Option<Move>, score0: real, last: Option<LastMove>, p: EvalParams)
    returns (move: Option<Move>, score: real)
    requires WellFormed(s)
    ensures var c := OnePlyScores(s, WorkerLegalMoves(s), p);
      && (move != move0 <==> move0.Some? && Reverses(move0.value, last) && AlternativeAbove(c, last, score0 - 20.0))
      && (move == move0 ==> score == score0)
      && (move != move0 ==> Replaces(c, last, score0, move, score))
  {
    move, score := move0, score0;
    if move0.Some? && move0.value.MoveTo? && last.Some? && last.value.TokenMoveFrom? {
      if move0.value.x == last.value.fromX && move0.value.y == last.value.fromY {
        var penalizedScore := score0 - 20.0;
        var best := FindBestAlternative(s, last, p);
        ghost var c := OnePlyScores(s, WorkerLegalMoves(s), p);
        BestAlternativeSpec(c, last);
        BestAlternativeAbove(c, last, penalizedScore);
        if best.Some? && best.value.1 > penalizedScore {
          move, score := Some(best.value.0), best.value.1;
        }
      }
    }
  }

  // ---------------------------------------------------------------------
  // The root call

  /** The depth a request asks for, 2 when it gives none or zero. */
  function WorkerDepth(depth: Option<nat>): nat {
    if depth.Some? && depth.value != 0 then depth.value else 2
  }

  /** The threshold a request asks for, none when it gives none or zero. */
  function WorkerThreshold(threshold: Option<Ext>): Ext {
    if threshold.Some? && threshold.value != Fin(0.0) then threshold.value else PosInf
  }

  /** Over the full window a fail-soft score is the value itself. */
  lemma FullWindowExact(score: real, value: real)
    requires FailSoft(NegInf, PosInf, score, value)
    ensures score == value
  {
  }

  /** What the root call returns for the mover of `s` under the request's
      settings and the mover's recorded last move: the counters of a search
      of the requested depth, no move at a finished game, a legal move
      otherwise, and, with no threshold, the minimax value and the first
      move in the search order that attains it, unless the guard replaced a
      reversal (which it cannot when no token move is recorded). */
  ghost predicate RootResult(s: State, depth: Option<nat>, threshold: Option<Ext>, p: Option<EvalParams>,
                             last: Option<LastMove>, move: Option<Move>, score: real, st: WorkerStats)
    requires WellFormed(s)
  {
    var d, q := WorkerDepth(depth), OrElse(p, DefaultEvalParams());
    var value := WorkerValue(s, d, true, s.currentPlayer, q);
    && Consistent(st.nodes) && st.nodes.maxDepth == d && Cutoffs(st) <= st.nodes.totalNodes
    && (IsLeaf(s, d) ==> move.None? && score == WorkerEvaluate(s, s.currentPlayer, q) && st.nodes.totalNodes == 0)
    && (!IsLeaf(s, d) && |WorkerLegalMoves(s)| > 0 ==> move.Some? && move.value in WorkerLegalMoves(s))
    && (WorkerThreshold(threshold) == PosInf ==>
          || (score == value && (move.Some? ==> WorkerFirstBestMove(s, d, true, s.currentPlayer, q, move, score)))
          || Replaces(OnePlyScores(s, WorkerLegalMoves(s), q), last, value, move, score))
    && (WorkerThreshold(threshold) == PosInf && (last.None? || last.value.WallPlaced?) ==>
          score == value && (move.Some? ==> WorkerFirstBestMove(s, d, true, s.currentPlayer, q, move, score)))
  }

  /** The search from the root for the mover over the full window with
      fresh counters, then the reversal guard with the mover's last move. */
  method WorkerGetBestMoveMinMax(s: State, depth: Option<nat>, threshold: Option<Ext>, p: Option<EvalParams>,
                                 history: seq<Option<LastMove>>)
    returns (move: Option<Move>, score: real, st: WorkerStats)
    requires WellFormed(s) && |history| == 2
    ensures RootResult(s, depth, threshold, p, history[s.currentPlayer], move, score, st)
  {
    var playerIndex := s.currentPlayer;
    var actualDepth := WorkerDepth(depth);
    var actualPruneThreshold := WorkerThreshold(threshold);
    var actualEvalParams := OrElse(p, DefaultEvalParams());
    var st0 := ResetWorkerStats(actualDepth);
    var move0, score0;
    ghost var stc;
    move0, score0, st, stc := WorkerMinmax(s, actualDepth, NegInf, PosInf, true, playerIndex,
                                         actualPruneThreshold, actualEvalParams, st0, true);
    var lastMove := history[playerIndex];
    ghost var value := WorkerValue(s, actualDepth, true, playerIndex, actualEvalParams);
    if actualPruneThreshold == PosInf {
      FullWindowExact(score0, value);
    }
    move, score := AvoidReversal(s, move0, score0, lastMove, actualEvalParams);
    assert lastMove.None? || lastMove.value.WallPlaced? ==> score == score0 by {
      if lastMove.None? || lastMove.value.WallPlaced? {
        assert move0.None? || !Reverses(move0.value, lastMove);
      }
    }
    ghost var c := OnePlyScores(s, WorkerLegalMoves(s), actualEvalParams);
    if move != move0 {
      OnePlyScoresMember(s, WorkerLegalMoves(s), actualEvalParams, (move.value, score));
    }
  }

  // ---------------------------------------------------------------------
  // The worker and its last-move history

  /** A search request's settings; any of them may be missing. The lock
      setting is passed on but the worker's evaluation has no lock terms. */
  datatype SearchConfig = SearchConfig(depth: Option<nat>, pruneThreshold: Option<Ext>,
                                       useLockedDistance: Option<bool>, eval: Option<EvalParams>)

  /** As written, the message handler records every reported last move in
      slot 0 of the history, whoever is to move. */
  function RecordLastMoveAsWritten(history: seq<Option<LastMove>>, lastMove: Option<LastMove>): (h: seq<Option<LastMove>>)
    requires |history| == 2
    ensures |h| == 2 && h[0] == lastMove && h[1] == history[1]
  {
    history[0 := lastMove]
  }

  /** The history after a run of search requests reporting `reports`, from
      a fresh or cleared worker, as written. */
  function HistoryAsWritten(reports: seq<Option<LastMove>>): (h: seq<Option<LastMove>>)
    ensures |h| == 2
  {
    if |reports| == 0 then [None, None]
    else RecordLastMoveAsWritten(HistoryAsWritten(reports[..|reports| - 1]), reports[|reports| - 1])
  }

  /** As written, slot 1 stays empty whatever is reported, so the guard
      never recognises a reversal by player 1: for instance, player 1 stepped
      from (4, 7) and the search proposes going back to (4, 7). */
  lemma {:induction false} AsWrittenPlayerOneUnguarded(reports: seq<Option<LastMove>>)
    ensures HistoryAsWritten(reports)[1] == None
    ensures forall m :: !Reverses(m, HistoryAsWritten(reports)[1])
    ensures !Reverses(MoveTo(4, 7), HistoryAsWritten(reports + [Some(TokenMoveFrom(4, 7))])[1])
  {
    if |reports| > 0 {
      AsWrittenPlayerOneUnguarded(reports[..|reports| - 1]);
    }
    var r := reports + [Some(TokenMoveFrom(4, 7))];
    assert r[..|r| - 1] == reports;
  }

  /** The report recorded in the mover's own slot. */
  function RecordLastMove(history: seq<Option<LastMove>>, s: State, lastMove: Option<LastMove>): (h: seq<Option<LastMove>>)
    requires |history| == 2
    ensures |h| == 2 && h[s.currentPlayer] == lastMove && h[1 - s.currentPlayer] == history[1 - s.currentPlayer]
  {
    history[s.currentPlayer := lastMove]
  }

  /** Recorded in the mover's slot, a reported step from (x, y) makes the
      step back to (x, y) a reversal for either player. */
  lemma RecordLastMoveGuardsMover(history: seq<Option<LastMove>>, s: State, x: int, y: int)
    requires |history| == 2
    ensures Reverses(MoveTo(x, y), RecordLastMove(history, s, Some(TokenMoveFrom(x, y)))[s.currentPlayer])
  {
  }

  /** The search worker: its only state is the last move reported for each
      player. */
  class SearchWorker {
    var lastMoveHistory: seq<Option<LastMove>>

    ghost predicate Valid()
      reads this
    {
      |lastMoveHistory| == 2
    }

    constructor ()
      ensures Valid() && lastMoveHistory == [None, None]
    {
      lastMoveHistory := [None, None];
    }

    /** The 'clearHistory' message. */
    method ClearHistory()
      modifies this
      ensures Valid() && lastMoveHistory == [None, None]
    {
      lastMoveHistory := [None, None];
    }

    /** The 'search' message as written: the reported last move goes to
      slot 0 whoever is to move, then the root search runs with the
      request's settings and a guard that reads the mover's own slot. So
      player 0's report guards player 0's search, while player 1's search
      is guarded by whatever slot 1 already held. */
    method HandleSearch(s: State, config: SearchConfig, lastMove: Option<LastMove>)
      returns (move: Option<Move>, score: real, st: WorkerStats)
      requires Valid() && WellFormed(s)
      modifies this
      ensures Valid() && lastMoveHistory == RecordLastMoveAsWritten(old(lastMoveHistory), lastMove)
      ensures RootResult(s, config.depth, config.pruneThreshold, config.eval, lastMoveHistory[s.currentPlayer], move, score, st)
      ensures s.currentPlayer == 0 ==> RootResult(s, config.depth, config.pruneThreshold, config.eval, lastMove, move, score, st)
      ensures s.currentPlayer == 1 ==>
        RootResult(s, config.depth, config.pruneThreshold, config.eval, old(lastMoveHistory)[1], move, score, st)
    {
      lastMoveHistory := RecordLastMoveAsWritten(lastMoveHistory, lastMove);
      move, score, st := WorkerGetBestMoveMinMax(s, config.depth, config.pruneThreshold, config.eval, lastMoveHistory);
    }

    /** The 'search' message as evidently intended: the reported last move
      recorded in the mover's slot, so the guard of every search reads the
      move the mover just reported. */
    method HandleSearchInMoverSlot(s: State, config: SearchConfig, lastMove: Option<LastMove>)
      returns (move: Option<Move>, score: real, st: WorkerStats)
      requires Valid() && WellFormed(s)
      modifies this
      ensures Valid() && lastMoveHistory == RecordLastMove(old(lastMoveHistory), s, lastMove)
      ensures RootResult(s, config.depth, config.pruneThreshold, config.eval, lastMove, move, score, st)
    {
      lastMoveHistory := RecordLastMove(lastMoveHistory, s, lastMove);
      move, score, st := WorkerGetBestMoveMinMax(s, config.depth, config.pruneThreshold, config.eval, lastMoveHistory);
    }
  }
}

/** The game's alpha-beta search: a minimax over every legal move, cut off
    by the alpha-beta window and, optionally, by a score threshold, with
    per-depth node counters returned alongside the result. */
module Search {
  import opened Wrappers
  import opened Game
  import opened Board
  import opened Evaluation

  // ---------------------------------------------------------------------
  // Scores extended with the two infinities

  /** A window bound or threshold: a finite score or one of the infinities. */
  datatype Ext = NegInf | Fin(r: real) | PosInf

  /** The strict order of the extended scores. */
  predicate Less(a: Ext, b: Ext) {
    match a
    case NegInf => !b.NegInf?
    case Fin(x) => b.PosInf? || (b.Fin? && x < b.r)
    case PosInf => false
  }

  /** The larger of two extended scores. */
  function ExtMax(a: Ext, b: Ext): (c: Ext)
    ensures c == a || c == b
    ensures !Less(c, a) && !Less(c, b)
  {
    if Less(a, b) then b else a
  }

  /** The smaller of two extended scores. */
  function ExtMin(a: Ext, b: Ext): (c: Ext)
    ensures c == a || c == b
    ensures !Less(a, c) && !Less(b, c)
  {
    if Less(b, a) then b else a
  }

  /** Whether the absolute value of `x` reaches the threshold `t`. */
  predicate ReachesThreshold(x: real, t: Ext) {
    match t
    case NegInf => true
    case Fin(u) => (if x < 0.0 then -x else x) >= u
    case PosInf => false
  }

  // ---------------------------------------------------------------------
  // The unpruned minimax value

  /** A node the search does not expand: depth exhausted or game over. */
  predicate IsLeaf(s: State, depth: nat) {
    depth == 0 || IsGameOver(s)
  }

  /** The minimax value of `s` searched `depth` plies deep with every legal
      move tried, scored for `orig` at the leaves and at nodes without a
      legal move. */
  ghost function Value(s: State, depth: nat, isMax: bool, orig: PlayerIndex, useLocked: bool, p: EvalParams): real
    requires WellFormed(s)
    decreases depth, 2
  {
    if IsLeaf(s, depth) || |AllLegalMoves(s)| == 0 then Evaluate(s, orig, useLocked, p)
    else Best(ChildValues(s, depth, isMax, orig, useLocked, p), |AllLegalMoves(s)|, isMax)
  }

  /** The values of the successors of the legal moves, in order, one ply
      less deep and with the other side to move. */
  ghost function ChildValues(s: State, depth: nat, isMax: bool, orig: PlayerIndex, useLocked: bool, p: EvalParams): (vals: seq<real>)
    requires WellFormed(s) && 1 <= depth
    ensures |vals| == |AllLegalMoves(s)|
    decreases depth, 1
  {
    var moves := AllLegalMoves(s);
    seq(|moves|, k requires 0 <= k < |moves| => ChildValue(s, depth, isMax, orig, useLocked, p, k))
  }

  /** The value of the successor of the `k`-th legal move. */
  ghost function ChildValue(s: State, depth: nat, isMax: bool, orig: PlayerIndex, useLocked: bool, p: EvalParams, k: nat): real
    requires WellFormed(s) && 1 <= depth && k < |AllLegalMoves(s)|
    decreases depth, 0
  {
    var m := AllLegalMoves(s)[k];
    LegalMoveKeepsWellFormed(s, m);
    Value(ApplyMoveToState(s, m), depth - 1, !isMax, orig, useLocked, p)
  }

  /** The best of the first `k` values: the largest for the maximiser, the
      smallest for the minimiser. It is one of them and bounds all of them. */
  function Best(vals: seq<real>, k: nat, isMax: bool): (r: real)
    requires 1 <= k <= |vals|
    ensures exists j :: 0 <= j < k && vals[j] == r
    ensures forall j :: 0 <= j < k ==> if isMax then vals[j] <= r else r <= vals[j]
  {
    if k == 1 then vals[0]
    else
      var prev := Best(vals, k - 1, isMax);
      if isMax then (if vals[k - 1] > prev then vals[k - 1] else prev)
      else (if vals[k - 1] < prev then vals[k - 1] else prev)
  }

  // ---------------------------------------------------------------------
  // Search statistics

  /** The node counters of one search: the depth it was started with, the
      expanded nodes per ply and their total. */
  datatype Stats = Stats(maxDepth: nat, nodesPerDepth: seq<nat>, totalNodes: nat)

  function Sum(a: seq<nat>): nat {
    if |a| == 0 then 0 else Sum(a[..|a| - 1]) + a[|a| - 1]
  }

  /** The total is the sum of the per-ply counts. */
  predicate Consistent(st: Stats) {
    st.totalNodes == Sum(st.nodesPerDepth)
  }

  /** Fresh counters for a search `maxDepth` plies deep. */
  function ResetStats(maxDepth: nat): (st: Stats)
    ensures Consistent(st) && st.maxDepth == maxDepth && st.totalNodes == 0
  {
    Stats(maxDepth, [], 0)
  }

  lemma SumAppendZero(a: seq<nat>)
    ensures Sum(a + [0]) == Sum(a)
  {
    assert (a + [0])[..|a|] == a;
  }

  lemma {:induction false} SumIncrement(a: seq<nat>, i: nat)
    requires i < |a|
    ensures Sum(a[i := a[i] + 1]) == Sum(a) + 1
    decreases |a|
  {
    var b := a[i := a[i] + 1];
    if i < |a| - 1 {
      assert b[..|b| - 1] == a[..|a| - 1][i := a[i] + 1];
      SumIncrement(a[..|a| - 1], i);
    } else {
      assert b[..|b| - 1] == a[..|a| - 1];
    }
  }

  /** One expanded node at ply `maxDepth - depth + 1`: the per-ply list is
      padded with zeros up to that ply and its count raised by one, and so
      is the total. */
  method CountNode(st0: Stats, depth: nat) returns (st: Stats)
    requires Consistent(st0) && 1 <= depth <= st0.maxDepth
    ensures Consistent(st) && st.maxDepth == st0.maxDepth && st.totalNodes == st0.totalNodes + 1
    ensures var ply := st0.maxDepth - depth;
            && |st.nodesPerDepth| == (if |st0.nodesPerDepth| > ply then |st0.nodesPerDepth| else ply + 1)
            && (forall j :: 0 <= j < |st.nodesPerDepth| && j != ply ==>
                  st.nodesPerDepth[j] == (if j < |st0.nodesPerDepth| then st0.nodesPerDepth[j] else 0))
            && st.nodesPerDepth[ply] == (if ply < |st0.nodesPerDepth| then st0.nodesPerDepth[ply] else 0) + 1
  {
    var currentDepth := st0.maxDepth - depth + 1;
    var counts := st0.nodesPerDepth;
    while |counts| < currentDepth
      invariant |st0.nodesPerDepth| <= |counts|
      invariant |counts| <= currentDepth || counts == st0.nodesPerDepth
      invariant counts[..|st0.nodesPerDepth|] == st0.nodesPerDepth
      invariant forall j :: |st0.nodesPerDepth| <= j < |counts| ==> counts[j] == 0
      invariant Sum(counts) == Sum(st0.nodesPerDepth)
      decreases currentDepth - |counts|
    {
      SumAppendZero(counts);
      counts := counts + [0];
    }
    SumIncrement(counts, currentDepth - 1);
    counts := counts[currentDepth - 1 := counts[currentDepth - 1] + 1];
    st := st0.(nodesPerDepth := counts, totalNodes := st0.totalNodes + 1);
  }

  // ---------------------------------------------------------------------
  // The search

  /** The alpha-beta guarantee: a score at or below the window is an upper
      bound of the true value, one inside it is the value, and one at or
      above it a lower bound. */
  predicate FailSoft(alpha: Ext, beta: Ext, score: real, value: real) {
    && (!Less(alpha, Fin(score)) ==> value <= score)
    && (Less(alpha, Fin(score)) && Less(Fin(score), beta) ==> value == score)
    && (!Less(Fin(score), beta) ==> score <= value)
  }

  /** `vals[j]` equals `score` and is the first to: every earlier value is
      worse for the side to move (smaller for the maximiser, larger for the
      minimiser). */
  predicate FirstAttains(vals: seq<real>, j: int, score: real, isMax: bool) {
    && 0 <= j < |vals| && vals[j] == score
    && forall i :: 0 <= i < j ==> if isMax then vals[i] < score else score < vals[i]
  }

  /** The move a search returns at an inner node: the first legal move whose
      successor's value is `score`. */
  ghost predicate FirstBestMove(s: State, depth: nat, isMax: bool, orig: PlayerIndex, useLocked: bool, p: EvalParams,
                                move: Option<Move>, score: real)
    requires WellFormed(s)
  {
    && move.Some? && 1 <= depth
    && exists j :: 0 <= j < |AllLegalMoves(s)| && AllLegalMoves(s)[j] == move.value
                   && FirstAttains(ChildValues(s, depth, isMax, orig, useLocked, p), j, score, isMax)
  }

  /** Searches `s` to `depth` plies with the window (alpha, beta): a leaf
      is scored for `orig`; otherwise the node is counted and every legal
      move tried in order, the maximiser raising alpha and the minimiser
      lowering beta, stopping once the window closes or a score reaches the
      threshold. The move is the first that attained the returned score. */
  method Minmax(s: State, depth: nat, alpha: Ext, beta: Ext, isMax: bool, orig: PlayerIndex,
                threshold: Ext, useLocked: bool, p: EvalParams, st0: Stats)
    returns (move: Option<Move>, score: real, st: Stats)
    requires WellFormed(s) && Consistent(st0) && depth <= st0.maxDepth
    ensures Consistent(st) && st.maxDepth == st0.maxDepth && st.totalNodes >= st0.totalNodes
    ensures IsLeaf(s, depth) ==> move.None? && score == Evaluate(s, orig, useLocked, p) && st == st0
    ensures !IsLeaf(s, depth) ==> st.totalNodes > st0.totalNodes
    ensures !IsLeaf(s, depth) && |AllLegalMoves(s)| == 0 ==> move.None? && score == Evaluate(s, orig, useLocked, p)
    ensures !IsLeaf(s, depth) && |AllLegalMoves(s)| > 0 ==> move.Some? && move.value in AllLegalMoves(s)
    ensures threshold == PosInf && Less(alpha, beta) ==> FailSoft(alpha, beta, score, Value(s, depth, isMax, orig, useLocked, p))
    ensures threshold == PosInf && Less(alpha, Fin(score)) && Less(Fin(score), beta) && move.Some? ==>
              FirstBestMove(s, depth, isMax, orig, useLocked, p, move, score)
    decreases depth, 3
  {
    if depth == 0 || IsGameOver(s) {
      score := EvaluateState(s, orig, useLocked, p);
      return None, score, st0;
    }
    st := CountNode(st0, depth);
    var moves := GetAllLegalMoves(s);
    if |moves| == 0 {
      score := EvaluateState(s, orig, useLocked, p);
      return None, score, st;
    }
    if isMax {
      move, score, st := MaxOverMoves(s, moves, depth, alpha, beta, orig, threshold, useLocked, p, st);
    } else {
      move, score, st := MinOverMoves(s, moves, depth, alpha, beta, orig, threshold, useLocked, p, st);
    }
  }

  /** The search of the `k`-th legal move's successor, one ply less deep
      and with the other side to move. */
  method SearchChild(s: State, moves: seq<Move>, k: nat, depth: nat, alpha: Ext, beta: Ext, isMax: bool, orig: PlayerIndex,
                     threshold: Ext, useLocked: bool, p: EvalParams, st0: Stats)
    returns (score: real, st: Stats)
    requires WellFormed(s) && 1 <= depth && moves == AllLegalMoves(s) && k < |moves|
    requires Consistent(st0) && depth <= st0.maxDepth
    ensures Consistent(st) && st.maxDepth == st0.maxDepth && st.totalNodes >= st0.totalNodes
    ensures threshold == PosInf && Less(alpha, beta) ==>
              FailSoft(alpha, beta, score, ChildValues(s, depth, isMax, orig, useLocked, p)[k])
    decreases depth, 0
  {
    var m := moves[k];
    LegalMoveKeepsWellFormed(s, m);
    var next := ApplyMoveToState(s, m);
    var _, r, st1 := Minmax(next, depth - 1, alpha, beta, !isMax, orig, threshold, useLocked, p, st0);
    score, st := r, st1;
  }

  /** What the maximiser's loop keeps after some moves: the best score so
      far bounds the best value so far from above when it did not raise
      alpha, and equals it when it did. */
  predicate MaxKeeps(alpha0: Ext, best: real, value: real) {
    && (!Less(alpha0, Fin(best)) ==> value <= best)
    && (Less(alpha0, Fin(best)) ==> value == best)
  }

  /** What the minimiser's loop keeps, mirrored. */
  predicate MinKeeps(beta0: Ext, best: real, value: real) {
    && (!Less(Fin(best), beta0) ==> best <= value)
    && (Less(Fin(best), beta0) ==> value == best)
  }

  /** The maximiser's loop state after the first `k` legal moves, whose
      values are `vals`: the counters consistent, alpha raised to the best
      score so far, a best move once one was searched, the window still
      open, and, with no threshold, the best score kept against the best of
      the values seen and attained first by the best move. */
  ghost predicate MaxLoopInv(vals: seq<real>, moves: seq<Move>, alpha0: Ext, beta: Ext, threshold: Ext, st0: Stats,
                             k: nat, maxScore: Ext, move: Option<Move>, alpha: Ext, st: Stats, bestIdx: nat)
    requires k <= |vals| == |moves|
  {
    && Consistent(st) && st.maxDepth == st0.maxDepth && st.totalNodes >= st0.totalNodes
    && alpha == ExtMax(alpha0, maxScore)
    && (k == 0 <==> maxScore == NegInf)
    && (k > 0 ==> maxScore.Fin? && Less(alpha, beta))
    && (move.Some? <==> k > 0)
    && (move.Some? ==> move.value in moves)
    && (k > 0 && threshold == PosInf && Less(alpha0, beta) ==> MaxKeeps(alpha0, maxScore.r, Best(vals, k, true)))
    && (k > 0 && threshold == PosInf && Less(alpha0, maxScore) ==>
          bestIdx < k && moves[bestIdx] == move.value && FirstAttains(vals, bestIdx, maxScore.r, true))
  }

  /** The maximiser's loop over the legal moves. */
  method MaxOverMoves(s: State, moves: seq<Move>, depth: nat, alpha0: Ext, beta: Ext, orig: PlayerIndex,
                      threshold: Ext, useLocked: bool, p: EvalParams, st0: Stats)
    returns (move: Option<Move>, score: real, st: Stats)
    requires WellFormed(s) && 1 <= depth && moves == AllLegalMoves(s) && |moves| > 0
    requires Consistent(st0) && depth <= st0.maxDepth
    ensures Consistent(st) && st.maxDepth == st0.maxDepth && st.totalNodes >= st0.totalNodes
    ensures move.Some? && move.value in moves
    ensures threshold == PosInf && Less(alpha0, beta) ==>
              FailSoft(alpha0, beta, score, Best(ChildValues(s, depth, true, orig, useLocked, p), |moves|, true))
    ensures threshold == PosInf && Less(alpha0, Fin(score)) && Less(Fin(score), beta) ==>
              exists j :: 0 <= j < |moves| && moves[j] == move.value
                          && FirstAttains(ChildValues(s, depth, true, orig, useLocked, p), j, score, true)
    decreases depth, 2
  {
    ghost var vals := ChildValues(s, depth, true, orig, useLocked, p);
    var maxScore := NegInf;
    move := None;
    var alpha := alpha0;
    st := st0;
    var k := 0;
    ghost var bestIdx: nat := 0;
    while k < |moves|
      invariant k <= |moves|
      invariant MaxLoopInv(vals, moves, alpha0, beta, threshold, st0, k, maxScore, move, alpha, st, bestIdx)
      decreases |moves| - k
    {
      var stop;
      maxScore, move, alpha, st, stop, bestIdx := MaxStep(s, moves, k, depth, alpha0, beta, orig, threshold, useLocked, p,
                                                          st0, maxScore, move, alpha, st, bestIdx);
      if stop {
        return move, maxScore.r, st;
      }
      k := k + 1;
    }
    score := maxScore.r;
  }

  /** One pass of the maximiser's loop: the `k`-th move's successor
      searched, the best score, the best move and alpha updated, and `stop`
      when the window closed or the score reached the threshold. */
  method MaxStep(s: State, moves: seq<Move>, k: nat, depth: nat, alpha0: Ext, beta: Ext, orig: PlayerIndex,
                 threshold: Ext, useLocked: bool, p: EvalParams, st0: Stats,
                 maxScore0: Ext, move0: Option<Move>, alpha1: Ext, st1: Stats, ghost bestIdx0: nat)
    returns (maxScore: Ext, move: Option<Move>, alpha: Ext, st: Stats, stop: bool, ghost bestIdx: nat)
    requires WellFormed(s) && 1 <= depth && moves == AllLegalMoves(s) && k < |moves| && depth <= st0.maxDepth
    requires MaxLoopInv(ChildValues(s, depth, true, orig, useLocked, p), moves, alpha0, beta, threshold, st0,
                        k, maxScore0, move0, alpha1, st1, bestIdx0)
    ensures alpha == ExtMax(alpha0, maxScore)
    ensures !stop ==> MaxLoopInv(ChildValues(s, depth, true, orig, useLocked, p), moves, alpha0, beta, threshold, st0,
                                 k + 1, maxScore, move, alpha, st, bestIdx)
    ensures stop ==> Consistent(st) && st.maxDepth == st0.maxDepth && st.totalNodes >= st0.totalNodes
                     && move.Some? && move.value in moves && maxScore.Fin?
    ensures stop && threshold == PosInf && Less(alpha0, beta) ==>
              FailSoft(alpha0, beta, maxScore.r, Best(ChildValues(s, depth, true, orig, useLocked, p), |moves|, true))
    ensures stop && threshold == PosInf ==> !Less(alpha, beta)
    decreases depth, 1
  {
    ghost var vals := ChildValues(s, depth, true, orig, useLocked, p);
    var m := moves[k];
    var r;
    r, st := SearchChild(s, moves, k, depth, alpha1, beta, true, orig, threshold, useLocked, p, st1);
    maxScore, move, bestIdx := maxScore0, move0, bestIdx0;
    if Less(maxScore, Fin(r)) {
      maxScore := Fin(r);
      move := Some(m);
      bestIdx := k;
    }
    alpha := ExtMax(alpha1, Fin(r));
    if !Less(alpha, beta) || ReachesThreshold(r, threshold) {
      if threshold == PosInf && Less(alpha0, beta) {
        MaxCutoff(vals, alpha0, beta, maxScore0, r, k);
      }
      return maxScore, move, alpha, st, true, bestIdx;
    }
    if threshold == PosInf && Less(alpha0, beta) {
      MaxContinue(vals, alpha0, beta, maxScore0, r, k);
      if bestIdx == k && Less(alpha0, maxScore) {
        MaxFirst(vals, alpha0, beta, maxScore0, r, k);
      }
    }
    stop := false;
  }

  /** A maximiser's score that raised the best so far and lies inside the
      window is its move's value, and every earlier value is smaller. */
  lemma MaxFirst(vals: seq<real>, alpha0: Ext, beta: Ext, prevBest: Ext, r: real, k: nat)
    requires k < |vals| && Less(alpha0, beta)
    requires k == 0 <==> prevBest == NegInf
    requires k > 0 ==> prevBest.Fin? && MaxKeeps(alpha0, prevBest.r, Best(vals, k, true))
    requires FailSoft(ExtMax(alpha0, prevBest), beta, r, vals[k])
    requires Less(prevBest, Fin(r)) && Less(alpha0, Fin(r)) && Less(Fin(r), beta)
    ensures FirstAttains(vals, k, r, true)
  {
  }

  /** The maximiser's step when the window stays open. */
  lemma MaxContinue(vals: seq<real>, alpha0: Ext, beta: Ext, prevBest: Ext, r: real, k: nat)
    requires k < |vals| && Less(alpha0, beta)
    requires k == 0 <==> prevBest == NegInf
    requires k > 0 ==> prevBest.Fin? && MaxKeeps(alpha0, prevBest.r, Best(vals, k, true))
    requires Less(ExtMax(alpha0, prevBest), beta)
    requires FailSoft(ExtMax(alpha0, prevBest), beta, r, vals[k])
    requires Less(ExtMax(ExtMax(alpha0, prevBest), Fin(r)), beta)
    ensures var best := if Less(prevBest, Fin(r)) then Fin(r) else prevBest;
            best.Fin? && MaxKeeps(alpha0, best.r, Best(vals, k + 1, true))
  {
  }

  /** The maximiser's step when the window closes: the score is a lower
      bound of the node's value. */
  lemma MaxCutoff(vals: seq<real>, alpha0: Ext, beta: Ext, prevBest: Ext, r: real, k: nat)
    requires k < |vals| && Less(alpha0, beta)
    requires k == 0 <==> prevBest == NegInf
    requires k > 0 ==> prevBest.Fin? && Less(ExtMax(alpha0, prevBest), beta)
    requires FailSoft(ExtMax(alpha0, prevBest), beta, r, vals[k])
    requires !Less(ExtMax(ExtMax(alpha0, prevBest), Fin(r)), beta)
    ensures var best := if Less(prevBest, Fin(r)) then Fin(r) else prevBest;
            best.Fin? && FailSoft(alpha0, beta, best.r, Best(vals, |vals|, true))
  {
  }

  /** The minimiser's loop state, mirrored. */
  ghost predicate MinLoopInv(vals: seq<real>, moves: seq<Move>, alpha: Ext, beta0: Ext, threshold: Ext, st0: Stats,
                             k: nat, minScore: Ext, move: Option<Move>, beta: Ext, st: Stats, bestIdx: nat)
    requires k <= |vals| == |moves|
  {
    && Consistent(st) && st.maxDepth == st0.maxDepth && st.totalNodes >= st0.totalNodes
    && beta == ExtMin(beta0, minScore)
    && (k == 0 <==> minScore == PosInf)
    && (k > 0 ==> minScore.Fin? && Less(alpha, beta))
    && (move.Some? <==> k > 0)
    && (move.Some? ==> move.value in moves)
    && (k > 0 && threshold == PosInf && Less(alpha, beta0) ==> MinKeeps(beta0, minScore.r, Best(vals, k, false)))
    && (k > 0 && threshold == PosInf && Less(minScore, beta0) ==>
          bestIdx < k && moves[bestIdx] == move.value && FirstAttains(vals, bestIdx, minScore.r, false))
  }

  /** The minimiser's loop over the legal moves. */
  method MinOverMoves(s: State, moves: seq<Move>, depth: nat, alpha: Ext, beta0: Ext, orig: PlayerIndex,
                      threshold: Ext, useLocked: bool, p: EvalParams, st0: Stats)
    returns (move: Option<Move>, score: real, st: Stats)
    requires WellFormed(s) && 1 <= depth && moves == AllLegalMoves(s) && |moves| > 0
    requires Consistent(st0) && depth <= st0.maxDepth
    ensures Consistent(st) && st.maxDepth == st0.maxDepth && st.totalNodes >= st0.totalNodes
    ensures move.Some? && move.value in moves
    ensures threshold == PosInf && Less(alpha, beta0) ==>
              FailSoft(alpha, beta0, score, Best(ChildValues(s, depth, false, orig, useLocked, p), |moves|, false))
    ensures threshold == PosInf && Less(alpha, Fin(score)) && Less(Fin(score), beta0) ==>
              exists j :: 0 <= j < |moves| && moves[j] == move.value
                          && FirstAttains(ChildValues(s, depth, false, orig, useLocked, p), j, score, false)
    decreases depth, 2
  {
    ghost var vals := ChildValues(s, depth, false, orig, useLocked, p);
    var minScore := PosInf;
    move := None;
    var beta := beta0;
    st := st0;
    var k := 0;
    ghost var bestIdx: nat := 0;
    while k < |moves|
      invariant k <= |moves|
      invariant MinLoopInv(vals, moves, alpha, beta0, threshold, st0, k, minScore, move, beta, st, bestIdx)
      decreases |moves| - k
    {
      var stop;
      minScore, move, beta, st, stop, bestIdx := MinStep(s, moves, k, depth, alpha, beta0, orig, threshold, useLocked, p,
                                                         st0, minScore, move, beta, st, bestIdx);
      if stop {
        return move, minScore.r, st;
      }
      k := k + 1;
    }
    score := minScore.r;
  }

  /** One pass of the minimiser's loop, mirrored. */
  method MinStep(s: State, moves: seq<Move>, k: nat, depth: nat, alpha: Ext, beta0: Ext, orig: PlayerIndex,
                 threshold: Ext, useLocked: bool, p: EvalParams, st0: Stats,
                 minScore0: Ext, move0: Option<Move>, beta1: Ext, st1: Stats, ghost bestIdx0: nat)
    returns (minScore: Ext, move: Option<Move>, beta: Ext, st: Stats, stop: bool, ghost bestIdx: nat)
    requires WellFormed(s) && 1 <= depth && moves == AllLegalMoves(s) && k < |moves| && depth <= st0.maxDepth
    requires MinLoopInv(ChildValues(s, depth, false, orig, useLocked, p), moves, alpha, beta0, threshold, st0,
                        k, minScore0, move0, beta1, st1, bestIdx0)
    ensures beta == ExtMin(beta0, minScore)
    ensures !stop ==> MinLoopInv(ChildValues(s, depth, false, orig, useLocked, p), moves, alpha, beta0, threshold, st0,
                                 k + 1, minScore, move, beta, st, bestIdx)
    ensures stop ==> Consistent(st) && st.maxDepth == st0.maxDepth && st.totalNodes >= st0.totalNodes
                     && move.Some? && move.value in moves && minScore.Fin?
    ensures stop && threshold == PosInf && Less(alpha, beta0) ==>
              FailSoft(alpha, beta0, minScore.r, Best(ChildValues(s, depth, false, orig, useLocked, p), |moves|, false))
    ensures stop && threshold == PosInf ==> !Less(alpha, beta)
    decreases depth, 1
  {
    ghost var vals := ChildValues(s, depth, false, orig, useLocked, p);
    var m := moves[k];
    var r;
    r, st := SearchChild(s, moves, k, depth, alpha, beta1, false, orig, threshold, useLocked, p, st1);
    minScore, move, bestIdx := minScore0, move0, bestIdx0;
    if Less(Fin(r), minScore) {
      minScore := Fin(r);
      move := Some(m);
      bestIdx := k;
    }
    beta := ExtMin(beta1, Fin(r));
    if !Less(alpha, beta) || ReachesThreshold(r, threshold) {
      if threshold == PosInf && Less(alpha, beta0) {
        MinCutoff(vals, alpha, beta0, minScore0, r, k);
      }
      return minScore, move, beta, st, true, bestIdx;
    }
    if threshold == PosInf && Less(alpha, beta0) {
      MinContinue(vals, alpha, beta0, minScore0, r, k);
      if bestIdx == k && Less(minScore, beta0) {
        MinFirst(vals, alpha, beta0, minScore0, r, k);
      }
    }
    stop := false;
  }

  /** The minimiser's mirror: a score that lowered the best so far and lies
      inside the window is its move's value, and every earlier value is
      larger. */
  lemma MinFirst(vals: seq<real>, alpha: Ext, beta0: Ext, prevBest: Ext, r: real, k: nat)
    requires k < |vals| && Less(alpha, beta0)
    requires k == 0 <==> prevBest == PosInf
    requires k > 0 ==> prevBest.Fin? && MinKeeps(beta0, prevBest.r, Best(vals, k, false))
    requires FailSoft(alpha, ExtMin(beta0, prevBest), r, vals[k])
    requires Less(Fin(r), prevBest) && Less(alpha, Fin(r)) && Less(Fin(r), beta0)
    ensures FirstAttains(vals, k, r, false)
  {
  }

  /** The minimiser's step when the window stays open. */
  lemma MinContinue(vals: seq<real>, alpha: Ext, beta0: Ext, prevBest: Ext, r: real, k: nat)
    requires k < |vals| && Less(alpha, beta0)
    requires k == 0 <==> prevBest == PosInf
    requires k > 0 ==> prevBest.Fin? && MinKeeps(beta0, prevBest.r, Best(vals, k, false))
    requires Less(alpha, ExtMin(beta0, prevBest))
    requires FailSoft(alpha, ExtMin(beta0, prevBest), r, vals[k])
    requires Less(alpha, ExtMin(ExtMin(beta0, prevBest), Fin(r)))
    ensures var best := if Less(Fin(r), prevBest) then Fin(r) else prevBest;
            best.Fin? && MinKeeps(beta0, best.r, Best(vals, k + 1, false))
  {
  }

  /** The minimiser's step when the window closes: the score is an upper
      bound of the node's value. */
  lemma MinCutoff(vals: seq<real>, alpha: Ext, beta0: Ext, prevBest: Ext, r: real, k: nat)
    requires k < |vals| && Less(alpha, beta0)
    requires k == 0 <==> prevBest == PosInf
    requires k > 0 ==> prevBest.Fin? && Less(alpha, ExtMin(beta0, prevBest))
    requires FailSoft(alpha, ExtMin(beta0, prevBest), r, vals[k])
    requires !Less(alpha, ExtMin(ExtMin(beta0, prevBest), Fin(r)))
    ensures var best := if Less(Fin(r), prevBest) then Fin(r) else prevBest;
            best.Fin? && FailSoft(alpha, beta0, best.r, Best(vals, |vals|, false))
  {
  }

  // ---------------------------------------------------------------------
  // The root call

  /** One player's search settings. */
  datatype CpuConfig = CpuConfig(depth: nat, pruneThreshold: Ext, useLockedDistance: bool, eval: EvalParams)

  /** The settings the game starts with: player 0 searches two plies with
      the lock terms on, player 1 three plies without them and with a wall
      stock worth 0.5 a wall; neither uses a threshold. */
  function DefaultCpuConfig(i: PlayerIndex): (c: CpuConfig)
    ensures c.pruneThreshold == PosInf && c.eval.wallPower == 1
    ensures i == 0 ==> c.depth == 2 && c.useLockedDistance && c.eval == DefaultEvalParams()
    ensures i == 1 ==> c.depth == 3 && !c.useLockedDistance && c.eval == DefaultEvalParams().(wallValue := 0.5)
  {
    if i == 0 then CpuConfig(2, PosInf, true, DefaultEvalParams())
    else CpuConfig(3, PosInf, false, DefaultEvalParams().(wallValue := 0.5))
  }

  /** An argument when one is given, else the setting. */
  function OrElse<T>(o: Option<T>, d: T): (r: T)
    ensures o.Some? ==> r == o.value
    ensures o.None? ==> r == d
  {
    if o.Some? then o.value else d
  }

  /** The settings a root search uses: each argument given, else the
      mover's own setting. */
  function ActualConfig(s: State, depth: Option<nat>, threshold: Option<Ext>, useLocked: Option<bool>, p: Option<EvalParams>): CpuConfig
  {
    var c := DefaultCpuConfig(s.currentPlayer);
    CpuConfig(OrElse(depth, c.depth), OrElse(threshold, c.pruneThreshold), OrElse(useLocked, c.useLockedDistance), OrElse(p, c.eval))
  }

  /** The search from the root for the mover, over the full window, with
      fresh counters. Without a threshold the score is the exact minimax
      value. */
  method GetBestMoveMinMax(s: State, depth: Option<nat>, threshold: Option<Ext>, useLocked: Option<bool>, p: Option<EvalParams>)
    returns (move: Option<Move>, score: real, st: Stats)
    requires WellFormed(s)
    ensures var c := ActualConfig(s, depth, threshold, useLocked, p);
      && Consistent(st) && st.maxDepth == c.depth
      && (IsLeaf(s, c.depth) ==> move.None? && score == Evaluate(s, s.currentPlayer, c.useLockedDistance, c.eval) && st.totalNodes == 0)
      && (!IsLeaf(s, c.depth) && |AllLegalMoves(s)| > 0 ==> move.Some? && move.value in AllLegalMoves(s))
      && (c.pruneThreshold == PosInf ==> score == Value(s, c.depth, true, s.currentPlayer, c.useLockedDistance, c.eval))
      && (c.pruneThreshold == PosInf && move.Some? ==>
            FirstBestMove(s, c.depth, true, s.currentPlayer, c.useLockedDistance, c.eval, move, score))
  {
    var playerIndex := s.currentPlayer;
    var config := DefaultCpuConfig(playerIndex);
    var actualDepth := OrElse(depth, config.depth);
    var actualPruneThreshold := OrElse(threshold, config.pruneThreshold);
    var actualUseLockedDistance := OrElse(useLocked, config.useLockedDistance);
    var actualEvalParams := OrElse(p, config.eval);
    var st0 := ResetStats(actualDepth);
    move, score, st := Minmax(s, actualDepth, NegInf, PosInf, true, playerIndex,
                              actualPruneThreshold, actualUseLockedDistance, actualEvalParams, st0);
  }
}

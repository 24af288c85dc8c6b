/** The undo support of the mobile game: a stack of saved game states, the
    part of the mobile UI state that an undo resets, and the undo button,
    which goes back one turn against a human and two turns (the player's
    and the computer's) against the computer. */
module History {
  import opened Wrappers
  import opened Game

  /** How many entries an undo of `count` takes off a stack of `n`: none
      for a count below one, at most the whole stack. */
  function Removed(count: int, n: nat): (k: nat)
    ensures k <= n
    ensures count <= 0 ==> k == 0
    ensures count > 0 ==> k == count || (k == n && n < count)
  {
    if count <= 0 then 0 else if count < n then count else n
  }

  /** The stack after an undo of `count`. */
  function AfterUndo(stack: seq<State>, count: int): (r: seq<State>)
    ensures r <= stack
  {
    stack[..|stack| - Removed(count, |stack|)]
  }

  /** The saved state on top of the stack, if any. */
  function Top(stack: seq<State>): (r: Option<State>)
    ensures r.None? <==> stack == []
    ensures r.Some? ==> r.value == stack[|stack| - 1]
  {
    if |stack| > 0 then Some(stack[|stack| - 1]) else None
  }

  /** An undo of `k` right after `k` saves returns to the stack before
      them, and the state it hands back is the last one saved before. */
  lemma UndoAfterSaves(stack: seq<State>, saved: seq<State>)
    ensures AfterUndo(stack + saved, |saved|) == stack
    ensures Top(AfterUndo(stack + saved, |saved|)) == Top(stack)
  {
    assert (stack + saved)[..|stack|] == stack;
  }

  /** Two undos in a row take off as much as one undo of both counts. */
  lemma UndoComposes(stack: seq<State>, a: int, b: int)
    requires a >= 0 && b >= 0
    ensures AfterUndo(AfterUndo(stack, a), b) == AfterUndo(stack, a + b)
  {
  }

  /** When the stack holds at least `count` entries an undo takes off
      exactly `count` of them and keeps the rest in order. */
  lemma UndoExact(stack: seq<State>, count: int)
    requires 0 <= count <= |stack|
    ensures |AfterUndo(stack, count)| == |stack| - count
    ensures forall i :: 0 <= i < |stack| - count ==> AfterUndo(stack, count)[i] == stack[i]
  {
  }

  class MoveHistory {
    var states: seq<State>

    constructor ()
      ensures states == []
    {
      states := [];
    }

    /** Pushes a copy of the game's state. */
    method SaveState(state: GameState)
      modifies this
      ensures states == old(states) + [state.View()]
    {
      states := states + [state.View()];
    }

    /** Pops up to `count` entries, one at a time while any are left,
        and returns a copy of the new top, if there is one. */
    method Undo(count: int) returns (top: Option<State>)
      modifies this
      ensures states == AfterUndo(old(states), count)
      ensures top == Top(states)
    {
      var i := 0;
      while i < count && |states| > 0
        invariant 0 <= i
        invariant count > 0 ==> i <= count
        invariant i <= |old(states)| && states == old(states)[..|old(states)| - i]
        invariant i < Removed(count, |old(states)|) ==> |states| > 0 && i < count
        invariant i <= Removed(count, |old(states)|)
      {
        states := states[..|states| - 1];
        i := i + 1;
      }
      top := if |states| > 0 then Some(states[|states| - 1]) else None;
    }

    predicate CanUndo(count: int)
      reads this
    {
      |states| >= count
    }

    method Clear()
      modifies this
      ensures states == []
    {
      states := [];
    }
  }

  /** One human against the computer, or two humans. */
  datatype GameMode = OnePlayer | TwoPlayer

  /** The mobile UI state without its pixel fields. */
  class MobileState {
    var gameMode: GameMode
    var playerFirst: bool
    var cpuThinking: bool
    var draggingPiece: Option<PlayerIndex>

    constructor ()
      ensures gameMode == OnePlayer && playerFirst && !cpuThinking && draggingPiece == None
    {
      gameMode := OnePlayer;
      playerFirst := true;
      cpuThinking := false;
      draggingPiece := None;
    }

    method Reset()
      modifies this
      ensures gameMode == old(gameMode) && playerFirst == old(playerFirst)
      ensures !cpuThinking && draggingPiece == None
    {
      cpuThinking := false;
      draggingPiece := None;
    }
  }

  /** Entries one press of the undo button takes off the stack. */
  function UndoCount(mode: GameMode): int {
    if mode == OnePlayer then 2 else 1
  }

  /** The game after an undo to snapshot `p`: tokens, walls, player to
      move and winner come from the snapshot; mode, turn counter, first
      player and placement flags stay. */
  function Restored(g: State, p: State): State {
    g.(players := p.players, walls := p.walls, currentPlayer := p.currentPlayer, winner := p.winner)
  }

  /** Restoring is a partial copy: the turn counter, the mode and the
      placement flags of the current game survive, and restoring the
      current game's own fields changes nothing. */
  lemma RestoredKeepsCounters(g: State, p: State)
    ensures Restored(g, p).turnNumber == g.turnNumber && Restored(g, p).mode == g.mode
    ensures Restored(g, p).piecePlaced == g.piecePlaced && Restored(g, p).firstPlayer == g.firstPlayer
    ensures Restored(g, g) == g
    ensures Restored(Restored(g, p), p) == Restored(g, p)
  {
  }

  /** The undo button. It acts only when the stack holds the whole count;
      it then pops it and, when a state is left on top, restores that
      state into the game and resets the mobile UI state. */
  method HandleUndo(game: GameState, mobile: MobileState, history: MoveHistory)
    modifies game, mobile, history
    ensures var stack := old(history.states);
      history.states == if |stack| >= UndoCount(old(mobile.gameMode)) then AfterUndo(stack, UndoCount(old(mobile.gameMode))) else stack
    ensures var acted := |old(history.states)| >= UndoCount(old(mobile.gameMode)) && history.states != [];
      if acted then
        && game.View() == Restored(old(game.View()), Top(history.states).value)
        && !mobile.cpuThinking && mobile.draggingPiece == None
      else
        && game.View() == old(game.View())
        && mobile.cpuThinking == old(mobile.cpuThinking) && mobile.draggingPiece == old(mobile.draggingPiece)
    ensures mobile.gameMode == old(mobile.gameMode) && mobile.playerFirst == old(mobile.playerFirst)
  {
    var undoCount := if mobile.gameMode == OnePlayer then 2 else 1;
    if history.CanUndo(undoCount) {
      var prevState := history.Undo(undoCount);
      if prevState.Some? {
        game.players := prevState.value.players;
        game.walls := prevState.value.walls;
        game.currentPlayer := prevState.value.currentPlayer;
        game.winner := prevState.value.winner;
        mobile.Reset();
      }
    }
  }

  /** Against the computer, an undo after the player's and the computer's
      saved turns goes back to the state saved before them. */
  lemma OnePlayerUndoReturns(stack: seq<State>, mine: State, cpu: State)
    requires |stack| > 0
    ensures AfterUndo(stack + [mine, cpu], UndoCount(OnePlayer)) == stack
    ensures Top(AfterUndo(stack + [mine, cpu], UndoCount(OnePlayer))) == Some(stack[|stack| - 1])
  {
    UndoAfterSaves(stack, [mine, cpu]);
  }
}

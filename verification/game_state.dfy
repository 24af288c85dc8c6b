/** The state of one game: the two tokens, the wall grid, whose turn it is,
    the play/edit mode, the winner and the turn counter that marks the
    opening placement phase. `State` is the value of all these fields;
    `GameState` is the object the game mutates in place. */
module Game {
  import opened Wrappers
  import opened Geometry

  /** A token: its cell and the number of walls its owner still holds. */
  datatype Player = Player(x: int, y: int, wallsLeft: int)

  /** Player 0 starts on row 0 and races to row 8; player 1 the reverse. */
  type PlayerIndex = i: int | 0 <= i < 2

  type Players = s: seq<Player> | |s| == 2 witness [Player(4, 0, 10), Player(4, 8, 10)]

  /** One flag per player. */
  type Flags = s: seq<bool> | |s| == 2 witness [false, false]

  datatype Mode = Play | Edit

  /** Every field of a game state. */
  datatype State = State(
    players: Players,
    walls: Walls,
    currentPlayer: PlayerIndex,
    mode: Mode,
    winner: Option<PlayerIndex>,
    firstPlayer: PlayerIndex,
    turnNumber: int,
    piecePlaced: Flags)

  /** Walls each player holds at the start. */
  const WALLS_PER_PLAYER: int := 10

  function StartPlayers(): Players {
    [Player(4, 0, WALLS_PER_PLAYER), Player(4, 8, WALLS_PER_PLAYER)]
  }

  /** The cell a token stands on. */
  function PosOf(p: Player): Pos {
    Pos(p.x, p.y)
  }

  /** The row player `i` must reach. */
  function GoalRow(i: PlayerIndex): int {
    if i == 0 then 8 else 0
  }

  /** The row player `i` starts on. */
  function StartRow(i: PlayerIndex): int {
    if i == 0 then 0 else 8
  }

  /** The state of a newly constructed game. */
  function InitialState(): State {
    State(StartPlayers(), EmptyWalls(), 0, Play, None, 0, 1, [false, false])
  }

  /** Turns 1 and 2 are the placement phase, in which each player puts
      its token somewhere on its start row. */
  predicate IsPlacementPhase(s: State) {
    s.turnNumber <= 2
  }

  /** The player whose turn it is. */
  function Current(s: State): Player {
    s.players[s.currentPlayer]
  }

  /** The other player. */
  function Opponent(s: State): Player {
    s.players[1 - s.currentPlayer]
  }

  /** The turn passes to the other player and the turn counter advances;
      nothing else changes. */
  function SwitchedTurn(s: State): (r: State)
    ensures r.currentPlayer != s.currentPlayer
    ensures r.turnNumber == s.turnNumber + 1
    ensures r.(currentPlayer := s.currentPlayer, turnNumber := s.turnNumber) == s
  {
    s.(currentPlayer := 1 - s.currentPlayer, turnNumber := s.turnNumber + 1)
  }

  /** A reset state: a new game in which `firstPlayer` is kept and moves
      first. */
  function ResetOf(s: State): State {
    State(StartPlayers(), EmptyWalls(), s.firstPlayer, Play, None, s.firstPlayer, 1, [false, false])
  }

  /** Play switches to edit and nothing else changes; edit returns to play
      with no winner, both tokens counted as placed, at turn 3. */
  function ToggledMode(s: State): State {
    if s.mode == Play then s.(mode := Edit)
    else s.(mode := Play, winner := None, piecePlaced := [true, true], turnNumber := 3)
  }

  // ---------------------------------------------------------------------
  // Properties of the transitions

  /** After a switch the roles of current player and opponent swap, and a
      second switch hands the turn back. */
  lemma SwitchSwapsRoles(s: State)
    ensures Current(SwitchedTurn(s)) == Opponent(s)
    ensures Opponent(SwitchedTurn(s)) == Current(s)
    ensures SwitchedTurn(SwitchedTurn(s)).currentPlayer == s.currentPlayer
    ensures SwitchedTurn(SwitchedTurn(s)).turnNumber == s.turnNumber + 2
  {
  }

  /** A reset game is a new game apart from who moves first; it is in the
      placement phase, and the placement phase is over after both players
      have had their placement turn. */
  lemma ResetIsNewGame(s: State)
    ensures ResetOf(s) == InitialState().(currentPlayer := s.firstPlayer, firstPlayer := s.firstPlayer)
    ensures ResetOf(ResetOf(s)) == ResetOf(s)
    ensures IsPlacementPhase(ResetOf(s)) && IsPlacementPhase(SwitchedTurn(ResetOf(s)))
    ensures !IsPlacementPhase(SwitchedTurn(SwitchedTurn(ResetOf(s))))
  {
  }

  /** From play, toggling only changes the mode; from edit it returns to
      play at turn 3 with no winner and both tokens placed, which leaves the
      placement phase behind, and changes nothing else; two toggles from
      play come back to play. */
  lemma ToggleModeEffect(s: State)
    ensures s.mode == Play ==> ToggledMode(s) == s.(mode := Edit)
    ensures s.mode == Edit ==>
      && ToggledMode(s).mode == Play && ToggledMode(s).winner == None
      && ToggledMode(s).turnNumber == 3 && !IsPlacementPhase(ToggledMode(s))
      && ToggledMode(s).piecePlaced == [true, true]
      && ToggledMode(s).players == s.players && ToggledMode(s).walls == s.walls
      && ToggledMode(s).currentPlayer == s.currentPlayer
      && ToggledMode(s).firstPlayer == s.firstPlayer
    ensures ToggledMode(ToggledMode(s)).mode == s.mode
  {
  }

  // ---------------------------------------------------------------------
  // The mutable game object

  class GameState {
    var players: Players
    var walls: Walls
    var currentPlayer: PlayerIndex
    var mode: Mode
    var winner: Option<PlayerIndex>
    var firstPlayer: PlayerIndex
    var turnNumber: int
    var piecePlaced: Flags

    /** The value of all fields. */
    function View(): State
      reads this
    {
      State(players, walls, currentPlayer, mode, winner, firstPlayer, turnNumber, piecePlaced)
    }

    /** A new game: tokens in the middle of their start rows, ten walls
        each, an empty grid, player 0 to move in play mode, turn 1. */
    constructor ()
      ensures View() == InitialState()
    {
      players := StartPlayers();
      walls := EmptyWalls();
      currentPlayer := 0;
      mode := Play;
      winner := None;
      firstPlayer := 0;
      turnNumber := 1;
      piecePlaced := [false, false];
    }

    /** A new object with the same field values. */
    method Clone() returns (cloned: GameState)
      ensures fresh(cloned)
      ensures cloned.View() == View()
    {
      cloned := new GameState();
      cloned.players := players;
      cloned.walls := walls;
      cloned.currentPlayer := currentPlayer;
      cloned.mode := mode;
      cloned.winner := winner;
      cloned.firstPlayer := firstPlayer;
      cloned.turnNumber := turnNumber;
      cloned.piecePlaced := piecePlaced;
    }

    method Reset()
      modifies this
      ensures View() == ResetOf(old(View()))
      ensures firstPlayer == old(firstPlayer) && currentPlayer == firstPlayer
    {
      players := StartPlayers();
      walls := EmptyWalls();
      currentPlayer := firstPlayer;
      mode := Play;
      winner := None;
      turnNumber := 1;
      piecePlaced := [false, false];
    }

    method SwitchTurn()
      modifies this
      ensures View() == SwitchedTurn(old(View()))
    {
      currentPlayer := 1 - currentPlayer;
      turnNumber := turnNumber + 1;
    }

    method ToggleMode()
      modifies this
      ensures View() == ToggledMode(old(View()))
    {
      if mode == Play {
        mode := Edit;
      } else {
        mode := Play;
        winner := None;
        piecePlaced := [true, true];
        turnNumber := 3;
      }
    }
  }
}

/** The input side of the desktop game: the UI state with its display
    toggles and mode cycles, and the two input-handler operations that
    change state without looking at pixels, the edit-mode wall toggle and
    the mouse-wheel direction switch. */
module Input {
  import opened Wrappers
  import opened Geometry
  import opened Game
  import opened Board

  /** Whether a click moves the token or puts a wall. */
  datatype InputMode = MoveInput | WallInput

  /** A wall at an intersection, as the hover and preview fields hold it. */
  datatype WallMark = WallMark(x: int, y: int, dir: WallDir)

  /** Every field of the UI state except the pixel drag offset. */
  datatype UIView = UIView(
    validMoves: seq<Pos>,
    hoveredMove: Option<Pos>,
    wallPreview: Option<WallMark>,
    hoveredWall: Option<WallMark>,
    currentWallDir: WallDir,
    inputMode: InputMode,
    draggingPiece: Option<PlayerIndex>,
    showPaths: bool,
    distanceMapMode: int,
    showWallEvaluations: bool,
    lockedDistanceMode: int,
    showBestMove: bool,
    cpuMoveScheduled: Flags)

  /** The UI state of a fresh page: nothing hovered or dragged, vertical
      walls, move input, every overlay off. */
  function InitialUI(): UIView {
    UIView([], None, None, None, Vertical, MoveInput, None, false, 0, false, 0, false, [false, false])
  }

  /** Reset clears what belongs to the current turn and keeps the user's
      settings. */
  function ResetUI(v: UIView): UIView {
    v.(validMoves := [], hoveredMove := None, wallPreview := None, hoveredWall := None,
       draggingPiece := None, cpuMoveScheduled := [false, false])
  }

  function OtherInput(m: InputMode): InputMode {
    if m == MoveInput then WallInput else MoveInput
  }

  /** The remainder of a division that truncates toward zero, as the
      game's `%` computes it. */
  function TruncRem(a: int, b: int): (r: int)
    requires b > 0
    ensures a >= 0 ==> 0 <= r < b
    ensures a < 0 ==> -b < r <= 0
    ensures exists q :: a == q * b + r
  {
    if a >= 0 then
      assert a == (a / b) * b + a % b;
      a % b
    else
      assert -a == ((-a) / b) * b + (-a) % b;
      assert a == (-((-a) / b)) * b + -((-a) % b);
      -((-a) % b)
  }

  /** The next display mode of a three-way cycle: `(mode + 1) % 3`. */
  function NextMode(m: int): int {
    TruncRem(m + 1, 3)
  }

  /** The wheel swaps the wall direction; anything but vertical becomes
      vertical. */
  function WheelDir(d: WallDir): WallDir {
    if d == Vertical then Horizontal else Vertical
  }

  /** A cycled mode stays in 0..2 and advances by one modulo 3: the only
      way back to a mode is three steps. */
  lemma {:induction false} CycleStaysInRange(m: int)
    requires 0 <= m < 3
    ensures 0 <= NextMode(m) < 3
    ensures NextMode(m) == if m == 2 then 0 else m + 1
    ensures NextMode(m) != m && NextMode(NextMode(m)) != m
    ensures NextMode(NextMode(NextMode(m))) == m
  {
    assert TruncRem(m + 1, 3) == (m + 1) % 3;
  }

  /** Toggling the input mode twice gives it back, and once always changes
      it. */
  lemma InputToggleInvolution(m: InputMode)
    ensures OtherInput(m) != m && OtherInput(OtherInput(m)) == m
  {
  }

  /** The wheel always leaves a real direction, different from the one it
      started from, and two turns of the wheel from a real direction give
      it back. */
  lemma WheelFlips(d: WallDir)
    ensures WheelDir(d) != NoWall && WheelDir(d) != d
    ensures d != NoWall ==> WheelDir(WheelDir(d)) == d
  {
  }

  /** Reset gives the fresh state apart from the settings, and a second
      reset changes nothing. */
  lemma ResetKeepsSettings(v: UIView)
    ensures ResetUI(v) == InitialUI().(currentWallDir := v.currentWallDir, inputMode := v.inputMode,
      showPaths := v.showPaths, distanceMapMode := v.distanceMapMode,
      showWallEvaluations := v.showWallEvaluations, lockedDistanceMode := v.lockedDistanceMode,
      showBestMove := v.showBestMove)
    ensures ResetUI(ResetUI(v)) == ResetUI(v)
  {
  }

  class UIState {
    var validMoves: seq<Pos>
    var hoveredMove: Option<Pos>
    var wallPreview: Option<WallMark>
    var hoveredWall: Option<WallMark>
    var currentWallDir: WallDir
    var inputMode: InputMode
    var draggingPiece: Option<PlayerIndex>
    var showPaths: bool
    var distanceMapMode: int
    var showWallEvaluations: bool
    var lockedDistanceMode: int
    var showBestMove: bool
    var cpuMoveScheduled: Flags

    function View(): UIView
      reads this
    {
      UIView(validMoves, hoveredMove, wallPreview, hoveredWall, currentWallDir, inputMode, draggingPiece,
        showPaths, distanceMapMode, showWallEvaluations, lockedDistanceMode, showBestMove, cpuMoveScheduled)
    }

    /** The wall direction is a real one and both display modes are in
        0..2. */
    predicate Valid()
      reads this
    {
      currentWallDir != NoWall && 0 <= distanceMapMode < 3 && 0 <= lockedDistanceMode < 3
    }

    constructor ()
      ensures View() == InitialUI() && Valid()
    {
      validMoves := [];
      hoveredMove := None;
      wallPreview := None;
      hoveredWall := None;
      currentWallDir := Vertical;
      inputMode := MoveInput;
      draggingPiece := None;
      showPaths := false;
      distanceMapMode := 0;
      showWallEvaluations := false;
      lockedDistanceMode := 0;
      showBestMove := false;
      cpuMoveScheduled := [false, false];
    }

    method Reset()
      modifies this
      ensures View() == ResetUI(old(View()))
      ensures old(Valid()) ==> Valid()
    {
      validMoves := [];
      hoveredMove := None;
      wallPreview := None;
      hoveredWall := None;
      draggingPiece := None;
      cpuMoveScheduled := [false, false];
    }

    method ToggleInputMode()
      modifies this
      ensures View() == old(View()).(inputMode := OtherInput(old(inputMode)))
      ensures old(Valid()) ==> Valid()
    {
      inputMode := if inputMode == MoveInput then WallInput else MoveInput;
    }

    method ToggleShowPaths()
      modifies this
      ensures View() == old(View()).(showPaths := !old(showPaths))
      ensures old(Valid()) ==> Valid()
    {
      showPaths := !showPaths;
    }

    method CycleDistanceMapMode()
      modifies this
      ensures View() == old(View()).(distanceMapMode := NextMode(old(distanceMapMode)))
      ensures old(Valid()) ==> Valid()
    {
      distanceMapMode := TruncRem(distanceMapMode + 1, 3);
    }

    method ToggleWallEvaluations()
      modifies this
      ensures View() == old(View()).(showWallEvaluations := !old(showWallEvaluations))
      ensures old(Valid()) ==> Valid()
    {
      showWallEvaluations := !showWallEvaluations;
    }

    method CycleLockedDistanceMode()
      modifies this
      ensures View() == old(View()).(lockedDistanceMode := NextMode(old(lockedDistanceMode)))
      ensures old(Valid()) ==> Valid()
    {
      lockedDistanceMode := TruncRem(lockedDistanceMode + 1, 3);
    }

    method ToggleBestMove()
      modifies this
      ensures View() == old(View()).(showBestMove := !old(showBestMove))
      ensures old(Valid()) ==> Valid()
    {
      showBestMove := !showBestMove;
    }
  }

  // ---------------------------------------------------------------------
  // The edit-mode wall toggle

  /** The grid after a click on intersection (wx, wy) in edit mode with
      wall direction `dir`: an empty intersection takes the wall if the
      basic check admits it; a wall of the same direction is removed; a
      wall of the other direction is turned if the basic check admits the
      new direction once the old wall is gone, and is kept otherwise. */
  function EditToggledWalls(s: State, wx: int, wy: int, dir: WallDir): Walls
    requires 0 <= wx < 8 && 0 <= wy < 8
  {
    var current := s.walls[wy][wx];
    if current == NoWall then
      if CanPlaceWallBasic(s, wx, wy, dir) then PlaceWall(s.walls, wx, wy, dir) else s.walls
    else if current == dir then
      PlaceWall(s.walls, wx, wy, NoWall)
    else
      var cleared := s.(walls := PlaceWall(s.walls, wx, wy, NoWall));
      if CanPlaceWallBasic(cleared, wx, wy, dir) then PlaceWall(s.walls, wx, wy, dir) else s.walls
  }

  /** No wall of direction `dir` is anchored next to (wx, wy) along the
      wall's own axis. */
  predicate NeighboursFree(walls: Walls, wx: int, wy: int, dir: WallDir)
    requires 0 <= wx < 8 && 0 <= wy < 8
  {
    && (dir == Vertical ==> (wy == 0 || walls[wy - 1][wx] != Vertical) && (wy == 7 || walls[wy + 1][wx] != Vertical))
    && (dir == Horizontal ==> (wx == 0 || walls[wy][wx - 1] != Horizontal) && (wx == 7 || walls[wy][wx + 1] != Horizontal))
  }

  /** The toggle in terms of the rules: it touches no other intersection;
      an empty one takes `dir` exactly when the placement phase is over,
      the mover holds a wall and no neighbour along the axis has `dir`; a
      wall of direction `dir` is cleared; a wall of the other direction
      turns under the same conditions and stays as it was otherwise. */
  lemma EditToggleEffect(s: State, wx: int, wy: int, dir: WallDir)
    requires 0 <= wx < 8 && 0 <= wy < 8
    ensures var r := EditToggledWalls(s, wx, wy, dir);
      forall j, i :: 0 <= j < 8 && 0 <= i < 8 && (j != wy || i != wx) ==> r[j][i] == s.walls[j][i]
    ensures var r := EditToggledWalls(s, wx, wy, dir);
      var admitted := !IsPlacementPhase(s) && Current(s).wallsLeft > 0 && NeighboursFree(s.walls, wx, wy, dir);
      && (s.walls[wy][wx] == dir ==> r[wy][wx] == NoWall)
      && (s.walls[wy][wx] != dir ==> r[wy][wx] == if admitted then dir else s.walls[wy][wx])
  {
    var cleared := PlaceWall(s.walls, wx, wy, NoWall);
    assert NeighboursFree(cleared, wx, wy, dir) == NeighboursFree(s.walls, wx, wy, dir);
  }

  /** In edit mode the grid stays well spaced: no toggle puts a wall next
      to a wall of the same direction along its axis. */
  lemma EditToggleKeepsSpacing(s: State, wx: int, wy: int, dir: WallDir)
    requires 0 <= wx < 8 && 0 <= wy < 8 && WellSpaced(s.walls)
    ensures WellSpaced(EditToggledWalls(s, wx, wy, dir))
  {
    var current := s.walls[wy][wx];
    var cleared := PlaceWall(s.walls, wx, wy, NoWall);
    ClearingKeepsSpacing(s.walls, wx, wy);
    if current == NoWall {
      if CanPlaceWallBasic(s, wx, wy, dir) {
        AdmittedWallKeepsSpacing(s.walls, wx, wy, dir);
      }
    } else if current != dir {
      if CanPlaceWallBasic(s.(walls := cleared), wx, wy, dir) {
        AdmittedWallKeepsSpacing(cleared, wx, wy, dir);
        PlaceTwice(s.walls, wx, wy, NoWall, dir);
      }
    }
  }

  /** Removing a wall keeps a grid well spaced. */
  lemma ClearingKeepsSpacing(walls: Walls, wx: int, wy: int)
    requires 0 <= wx < 8 && 0 <= wy < 8 && WellSpaced(walls)
    ensures WellSpaced(PlaceWall(walls, wx, wy, NoWall))
  {
    var r := PlaceWall(walls, wx, wy, NoWall);
    forall j, i {:trigger r[j][i], r[j + 1][i]} | 0 <= j < 7 && 0 <= i < 8 && r[j][i] == Vertical
      ensures r[j + 1][i] != Vertical
    {
      assert walls[j][i] == Vertical;
    }
    forall j, i {:trigger r[j][i], r[j][i + 1]} | 0 <= j < 8 && 0 <= i < 7 && r[j][i] == Horizontal
      ensures r[j][i + 1] != Horizontal
    {
      assert walls[j][i] == Horizontal;
    }
  }

  /** A wall put on an empty intersection by a click is removed by a second
      click with the same direction, which gives back the grid. */
  lemma EditToggleRoundTrip(s: State, wx: int, wy: int, dir: WallDir)
    requires 0 <= wx < 8 && 0 <= wy < 8 && dir != NoWall
    requires s.walls[wy][wx] == NoWall && CanPlaceWallBasic(s, wx, wy, dir)
    ensures EditToggledWalls(s.(walls := EditToggledWalls(s, wx, wy, dir)), wx, wy, dir) == s.walls
  {
    var r := EditToggledWalls(s.(walls := EditToggledWalls(s, wx, wy, dir)), wx, wy, dir);
    forall j | 0 <= j < 8
      ensures r[j] == s.walls[j]
    {
      assert forall i :: 0 <= i < 8 ==> r[j][i] == s.walls[j][i];
    }
  }

  /** A second write to an intersection overrides the first. */
  lemma PlaceTwice(w: Walls, wx: int, wy: int, d1: WallDir, d2: WallDir)
    requires 0 <= wx < 8 && 0 <= wy < 8
    ensures PlaceWall(PlaceWall(w, wx, wy, d1), wx, wy, d2) == PlaceWall(w, wx, wy, d2)
  {
    assert PlaceWall(w, wx, wy, d1)[wy][wx := d2] == w[wy][wx := d2];
  }

  /** Writing back what an intersection holds changes nothing. */
  lemma PlaceSame(w: Walls, wx: int, wy: int)
    requires 0 <= wx < 8 && 0 <= wy < 8
    ensures PlaceWall(w, wx, wy, w[wy][wx]) == w
  {
    assert w[wy][wx := w[wy][wx]] == w[wy];
  }

  class InputHandler {
    const game: GameState
    const ui: UIState

    constructor (game: GameState, ui: UIState)
      ensures this.game == game && this.ui == ui
    {
      this.game := game;
      this.ui := ui;
    }

    /** The edit-mode click on intersection (wx, wy), writing the grid
        step by step as the game does: the old wall is cleared before the
        new direction is checked and written back if the check fails. */
    method ToggleEditWallAt(wx: int, wy: int)
      requires 0 <= wx < 8 && 0 <= wy < 8
      modifies game
      ensures game.View() == old(game.View()).(walls := EditToggledWalls(old(game.View()), wx, wy, old(ui.currentWallDir)))
    {
      var current := game.walls[wy][wx];
      var dir := ui.currentWallDir;
      if current == NoWall {
        if CanPlaceWallBasic(game.View(), wx, wy, dir) {
          game.walls := PlaceWall(game.walls, wx, wy, dir);
        }
      } else if current == dir {
        game.walls := PlaceWall(game.walls, wx, wy, NoWall);
      } else {
        ghost var original := game.walls;
        game.walls := PlaceWall(game.walls, wx, wy, NoWall);
        if CanPlaceWallBasic(game.View(), wx, wy, dir) {
          game.walls := PlaceWall(game.walls, wx, wy, dir);
          PlaceTwice(original, wx, wy, NoWall, dir);
        } else {
          game.walls := PlaceWall(game.walls, wx, wy, current);
          PlaceTwice(original, wx, wy, NoWall, current);
          PlaceSame(original, wx, wy);
        }
      }
    }

    /** Any wheel movement switches the wall direction; its amount is not
        used. */
    method HandleWheel(delta: int)
      modifies ui
      ensures ui.View() == old(ui.View()).(currentWallDir := WheelDir(old(ui.currentWallDir)))
      ensures old(ui.Valid()) ==> ui.Valid()
    {
      if ui.currentWallDir == Vertical {
        ui.currentWallDir := Horizontal;
      } else {
        ui.currentWallDir := Vertical;
      }
    }
  }
}

# Quoridor rules engine, search and helpers: a verified model

This project models the core of a browser Quoridor game in Dafny:

- the 9x9 board and the 8x8 grid of wall intersections;
- two tokens racing to opposite rows;
- the move and wall rules, and the distance and path oracles built on
  breadth-first search;
- the evaluation and the alpha-beta search of the computer player;
- the search worker's own copy of that search, with move ordering, cutoff
  counters and a guard against stepping straight back;
- the one-line text format for saving and loading a position;
- the UI mode toggles, the edit-mode wall toggle and the undo stack of the
  mobile page.

The modules follow the program's files:

| module | file | models |
|---|---|---|
| `Wrappers` | `wrappers.dfy` | `Option` and `Result` |
| `Geometry` | `geometry.dfy` | board constants, wall directions, the wall grid, wall blocking |
| `Game` | `game_state.dfy` | the game state as a value (`State`) and the `GameState` object |
| `Board` | `board_rules.dfy` | move generation, victory, wall legality, the state transitions, the legal-move list |
| `Distance` | `distance.dfy` | the distance map and the shortest path |
| `Reach` | `reach.dfy` | the reachability search behind the full wall check |
| `Paths` | `paths.dfy` | the memoised shortest-route count |
| `Locked` | `locked.dfy` | the locked-distance test and map |
| `Evaluation` | `evaluate.dfy` | the evaluation, wall scores and the one-ply best move |
| `Search` | `search.dfy` | alpha-beta minimax with node counters |
| `WorkerRules` | `worker_rules.dfy` | the worker's diverging rules, its evaluation and move ordering |
| `WorkerSearch` | `worker_search.dfy` | the worker's minimax, cutoff counters, reversal guard and message state |
| `Serial` | `serial.dfy` | the text export and import of a position |
| `Input` | `input.dfy` | the UI state toggles, the edit-mode wall toggle and the wheel |
| `History` | `history.dfy` | the undo stack and the undo button of the mobile page |

Code that only computes is written as functions and lemmas. Code that loops
or changes state is written as methods proved against specification
functions:

- breadth-first search, the path walk, the route count, the lock scan, the
  searches, export and import, and the move loops;
- `GameState`, `UIState`, `InputHandler`, `MoveHistory`, `MobileState` and
  `SearchWorker` are classes whose methods update their fields.

The search's properties are stated against an unpruned minimax value
(`Search.Value`, `WorkerSearch.WorkerValue`). The distance map is
characterised independently (`Distance.IsDistanceMap`) and proved unique.

## Model

| member | source | states |
|---|---|---|
| Geometry.DirCode | js/constants.js:26-30 | the wall direction codes lie in 0..2, and only "no wall" is 0 |
| Geometry.EmptyWalls | js/game.js:23-26 | every intersection of the new grid is empty |
| Geometry.PlaceWall | js/board.js:266-271 | writing one intersection sets it and leaves every other intersection unchanged |
| Geometry.BlockedSymmetric | js/board.js:9-28 | a step is blocked in one direction exactly when the reverse step is blocked |
| Geometry.VerticalWallBlocks | js/board.js:32-37 | a vertical wall at (wx, wy) cuts the horizontal steps between columns wx and wx+1 in rows wy and wy+1 |
| Geometry.HorizontalWallBlocks | js/board.js:41-46 | a horizontal wall at (wx, wy) cuts the vertical steps between rows wy and wy+1 in columns wx and wx+1 |
| Geometry.AddedWallKeepsBlocks | js/board.js:9-46 | putting a wall on an empty intersection unblocks no step |
| Geometry.EmptyGridBlocksNothing | js/board.js:9-46 | on the empty grid no step is blocked |
| Geometry.Opposite | js/board.js:65-70 | each of the four directions has a direction that undoes it |
| Game.SwitchedTurn | js/game.js:57-60 | switching changes the player to move, adds exactly one to the turn counter and changes nothing else |
| Game.SwitchSwapsRoles | js/game.js:57-70 | after a switch the current player is the old opponent and the reverse; two switches restore the mover and add two turns |
| Game.ResetIsNewGame | js/game.js:43-54 | a reset gives a new game in which the first player is kept and moves first; it is idempotent; the placement phase lasts exactly two turns |
| Game.ToggleModeEffect | js/game.js:73-83 | from play only the mode changes; from edit the mode is play, there is no winner, both tokens are placed and the turn counter is 3, so the placement phase is over, and players, walls, the player to move and the first player are unchanged |
| Game.GameState.constructor | js/game.js:3-15 | a new game: tokens at (4,0) and (4,8) with ten walls each, an empty grid, player 0 to move in play mode, turn 1 |
| Game.GameState.Clone | js/game.js:29-40 | a fresh object whose fields are equal to the original's |
| Game.GameState.Reset | js/game.js:43-54 | the new state is the reset of the old one, and the first player is unchanged and moves first |
| Game.GameState.SwitchTurn | js/game.js:57-60 | the new state is the old one with the turn switched |
| Game.GameState.ToggleMode | js/game.js:73-83 | the new state is the old one with the mode toggled |
| Board.DiagonalDirs | js/board.js:115-129 | the two side directions are perpendicular to the move and opposite to each other |
| Board.GetValidMoves | js/board.js:49-112 | the destinations are those of the move-generation specification |
| Board.PlacementOffersStartRow | js/board.js:49-60 | in the placement phase the offer is exactly the nine cells of the mover's start row |
| Board.MovesLandFree | js/board.js:62-112 | after the placement phase every destination is on the board and is neither token's cell |
| Board.OpenStepsOffered | js/board.js:62-112 | every open step to a free neighbour is offered, and so is the straight jump over an adjacent opponent when it is open |
| Board.SideStepsExactly | js/board.js:96-129 | the side steps listed next to the opponent are exactly its open side cells |
| Board.DirectionMovesExactly | js/board.js:73-108 | one direction lists exactly the destination the movement rule gives it: the free neighbour, else the open jump, else the open side cells |
| Board.MovesUpToExactly | js/board.js:65-109 | the first k directions list exactly the destinations the rule gives one of them |
| Board.ValidMovesExactly | js/board.js:62-112 | after the placement phase a destination is offered if and only if the movement rule gives it for one of the four directions |
| Board.OpenSideStepsOffered | js/board.js:89-107 | when the jump over an adjacent opponent is cut off, each open side cell of the opponent is offered |
| Board.CheckVictory | js/board.js:132-142 | player 0 wins on row 8 and is checked first; player 1 wins on row 0 |
| Board.IsGameOver | js/board.js:948-952 | the game is over exactly when a winner is recorded or a token stands on its goal row |
| Board.CanPlaceWallAt | js/board.js:528-545 | the grid admits a wall exactly when the intersection is in range and empty and no wall of the same direction is next to it along its axis |
| Board.CanPlaceWallBasic | js/board.js:215-247 | the basic check holds exactly when it is not the placement phase, the intersection is in range, the mover holds a wall, the intersection is empty and has no same-direction neighbour at plus or minus one |
| Board.AdmittedWallKeepsSpacing | js/board.js:215-247 | a wall the grid admits keeps every pair of same-direction walls apart |
| Board.CanPlaceWall | js/board.js:250-263 | the result holds exactly when the basic check holds and both tokens reach their goal rows with the wall in |
| Board.ExecuteMove | js/board.js:145-172 | the new state is the move's outcome from the old one |
| Board.MoveOutcome | js/board.js:145-172 | after the placement phase a move onto the goal row records the winner and keeps the turn, other moves pass it; the token lands on the target and the other token stays |
| Board.ExecuteWallPlacement | js/board.js:266-271 | only the intersection and the mover's stock change, the stock by minus one, and the turn passes |
| Board.GetAllLegalMoves | js/board.js:885-909 | the moves are the token destinations, then every wall the full check admits, row by row |
| Board.GridWallsAdmitted | js/board.js:895-906 | every listed wall is in the grid, has a direction and passes the full check |
| Board.GridWallsComplete | js/board.js:895-906 | every wall the full check admits at an intersection of the listed rows is listed |
| Board.LegalWallsListed | js/board.js:885-909 | a wall is a legal move if and only if the mover holds a wall and the full check admits it inside the grid |
| Board.ApplyMoveToState | js/board.js:917-941 | the input value is left alone; the opponent's token is unchanged; a wall move writes one intersection and spends one wall; the turn passes exactly when there is no winner |
| Board.LegalMoveKeepsWellFormed | js/board.js:885-941 | a legal move keeps both tokens on the board |
| Distance.SearchComputesDistanceMap | js/board.js:283-320 | the breadth-first search computes the distance map |
| Distance.DistanceMapUnique | js/board.js:283-320 | at most one grid meets the distance-map characterisation |
| Distance.DistanceMapGoalRow | js/board.js:283-320 | every label is at least -1, and a label is 0 exactly on the goal row |
| Distance.EmptyBoardDistance | js/board.js:283-320 | on the empty grid a cell's distance is the number of rows between it and the goal row |
| Distance.GetDistanceMap | js/board.js:283-320 | the loop's result is the distance map |
| Distance.WalkAtLeastDistance | js/board.js:283-320 | no walk to the goal row is shorter than the distance label |
| Distance.FirstDescentIsStep | js/board.js:356-363 | a first descent is an open step to an adjacent cell whose label is one less |
| Distance.FirstDescent | js/board.js:345-366 | off the goal row some direction descends, and the chosen neighbour is the first of up, down, left, right that is on the board, not walled off and labelled one less |
| Distance.GetShortestPath | js/board.js:330-371 | there is no path exactly when the start is -1; otherwise the path starts at the start, ends on the goal row, takes open adjacent steps and has length distance + 1; the i-th cell is labelled distance - i, and each cell is the first descent (up, down, left, right) from the one before |
| Reach.WalkFromDistance | js/board.js:283-320 | a labelled cell has a walk to the goal row |
| Reach.ReachableIffLabelled | js/board.js:175-212 | the goal row is reachable exactly when the distance map labels the cell |
| Reach.CanReachGoal | js/board.js:175-212 | the result is true exactly when some walk of open steps reaches the goal row |
| Paths.RouteExists | js/board.js:550-602 | a labelled cell has at least one shortest route |
| Paths.CountShortestPathsSound | js/board.js:550-602 | the count is at most the number of routes; it is 0 exactly for unreachable cells; within the depth limit it is at least 2 exactly when there are two routes |
| Paths.EmptyBoardSingleRoute | js/board.js:550-602 | on the empty grid every cell has exactly one shortest route |
| Paths.CountShortestPathsOf | js/board.js:550-560 | the count equals the count specification |
| Paths.CountPathsRecursive | js/board.js:562-602 | the memo array holds the updated memo and the count equals the recursive specification |
| Locked.LockedAtMeaning | js/board.js:472-523 | a locked cell reaches the goal row and no admitted wall changes its distance; a cell with one shortest route that no wall lengthens is locked; within 21 steps these are equivalent |
| Locked.IsDistanceLockedAt | js/board.js:472-523 | the scan's result is the lock specification |
| Locked.DistanceLocked | js/board.js:607-613 | with the opponent out of walls the token is locked; otherwise a locked token reaches its goal row |
| Locked.LockedDistance | js/board.js:621-629 | the locked distance is the distance when locked and -1 otherwise |
| Locked.IsDistanceLocked | js/board.js:607-613 | the result is the lock test for the player's token |
| Locked.GetLockedDistance | js/board.js:621-629 | the result is the locked distance |
| Locked.LockedMapAtPlayer | js/board.js:637-656 | the locked map at a token's cell is that token's locked distance |
| Locked.GetLockedDistanceMap | js/board.js:637-656 | the result is the locked-distance map |
| Evaluation.HasNoWalls | js/board.js:706 | the board test holds exactly for the empty grid |
| Evaluation.EvaluateState | js/board.js:670-715 | the computed score is the evaluation |
| Evaluation.EvaluateDecided | js/board.js:670-681 | a token on its goal row scores the win score; with the opponent on its goal row instead it scores minus the win score |
| Evaluation.EvaluateZeroSum | js/board.js:670-715 | with balanced weights and no goal reached, the two players' scores are opposite |
| Evaluation.EvaluateWithoutLocks | js/board.js:690-696 | turning the lock terms off equals giving them weight zero |
| Evaluation.EvaluateReadsBoard | js/board.js:670-715 | the score reads only the tokens, stocks and grid |
| Evaluation.EvaluateWallPlacement | js/board.js:381-433 | the result is the wall-score specification |
| Evaluation.WallNeverShortens | js/board.js:381-433 | a wall never shortens a distance and never makes an unreachable cell reachable |
| Evaluation.WallDeltaAdmits | js/board.js:381-433 | a wall gets a score exactly when the mover holds a wall, the grid admits it and both tokens still reach their goals; after the placement phase that is the full check |
| Evaluation.WallDeltaGains | js/board.js:381-433 | a scored wall lengthens neither distance negatively, and its score is the opponent's gain minus the mover's |
| Evaluation.GridEvalsExact | js/board.js:440-460 | an evaluation is listed exactly when it scores a wall the grid offers |
| Evaluation.GetAllWallEvaluations | js/board.js:440-460 | the list is the scored walls in row-major order, and membership is exactly "scored" |
| Evaluation.TentativeMatchesApply | js/board.js:722-764 | the tentative state differs from the applied move only in fields the evaluation does not read |
| Evaluation.GetBestMove | js/board.js:722-764 | the result is the first legal move of highest score, or none when there is no legal move |
| Search.ExtMax | js/board.js:1003 | the maximum is one of its arguments and neither argument exceeds it |
| Search.ExtMin | js/board.js:1032 | the minimum is one of its arguments and neither argument is below it |
| Search.Best | js/board.js:989-1046 | the best of a list is one of its values and bounds all of them |
| Search.ResetStats | js/board.js:840-845 | the counters are consistent, start from zero and record the depth |
| Search.CountNode | js/board.js:973-979 | a node adds one at its ply and one to the total, keeping the total equal to the per-ply sum |
| Search.Minmax | js/board.js:967-1047 | a leaf returns the evaluation; a node with moves returns a legal move; with no threshold and an open window the score is fail-soft against the unpruned minimax value, and a score strictly inside the window comes with the first legal move whose successor's value is that score |
| Search.MaxOverMoves | js/board.js:989-1016 | the maximiser's loop returns one of the moves and a fail-soft score; with no threshold a score strictly inside the window is the value of the returned move, and every earlier move's value is smaller |
| Search.MaxStep | js/board.js:994-1014 | one pass keeps the loop state (alpha raised to the best score, the best score kept against the values seen, the best move the first to attain it); a break leaves a fail-soft score and, with no threshold, a closed window |
| Search.MaxFirst | js/board.js:998-1001 | a score that raised the best so far and lies inside the window is its move's value, with every earlier value smaller |
| Search.MinOverMoves | js/board.js:1018-1046 | the minimiser's loop returns one of the moves and a fail-soft score; with no threshold a score strictly inside the window is the value of the returned move, and every earlier move's value is larger |
| Search.MinStep | js/board.js:1023-1043 | the minimiser's pass, mirrored |
| Search.MinFirst | js/board.js:1027-1030 | the minimiser's mirror of the first-attainment step |
| Search.DefaultCpuConfig | js/board.js:785-821 | player 0 searches depth 2 with locks; player 1 searches depth 3 without locks and with wall value 0.5 |
| Search.OrElse | js/board.js:1062-1066 | a given argument is used, else the setting |
| Search.GetBestMoveMinMax | js/board.js:1058-1077 | fresh counters at the requested depth; a legal move when one exists; with no threshold the score is the exact minimax value and the move is the first legal move whose successor attains it |
| WorkerRules.WorkerValidMoves | js/cpu_worker.js:110-152 | every destination is on the board and is neither token's cell |
| WorkerRules.WorkerGetValidMoves | js/cpu_worker.js:110-152 | the loop's result is the worker's destination list |
| WorkerRules.WorkerValidMovesMatch | js/cpu_worker.js:110-152 | after the placement phase the worker offers exactly the game's destinations |
| WorkerRules.WorkerCanPlaceWallBasic | js/cpu_worker.js:198-213 | the check holds exactly for an in-range intersection, a mover holding a wall, and a grid that admits the wall |
| WorkerRules.WorkerBasicMatch | js/cpu_worker.js:198-213 | the game's basic check is the worker's plus "not the placement phase" |
| WorkerRules.WorkerCanPlaceWall | js/cpu_worker.js:215-224 | the result is the worker's full check: its basic check and both tokens reaching their goals with the wall in |
| WorkerRules.WorkerWallMatch | js/cpu_worker.js:215-224 | an admitted wall is in range for a mover holding a wall; after the placement phase both full checks agree |
| WorkerRules.WorkerGetAllLegalMoves | js/cpu_worker.js:343-365 | the loop's result is the worker's legal-move list |
| WorkerRules.WorkerLegalMovesMatch | js/cpu_worker.js:343-365 | after the placement phase the worker's list is the game's, in the same order |
| WorkerRules.WorkerLegalMoveKeepsWellFormed | js/cpu_worker.js:405-427 | a listed move is an on-board step or an admitted in-grid wall, and applying it keeps both tokens on the board |
| WorkerRules.WorkerEvaluateState | js/cpu_worker.js:313-337 | the computed score is the worker's evaluation |
| WorkerRules.WorkerEvaluateMatch | js/cpu_worker.js:313-337 | the worker's score is the game's with the lock terms off and no goal-adjacency bonus |
| WorkerRules.WorkerEvaluateDecided | js/cpu_worker.js:319-323 | a token on its goal row scores the win score; with only the opponent there it scores minus the win score |
| WorkerRules.Clamp | js/cpu_worker.js:392 | the result lies in 0..500, keeps a value in range and saturates at each end |
| WorkerRules.OrderScoreBands | js/cpu_worker.js:367-403 | walls score 0..500; steps score at least 100; a step onto the goal row scores 10000; gaining steps score above 1000 |
| WorkerRules.SortDescending | js/cpu_worker.js:401 | the sort puts higher scores first |
| WorkerRules.SortStable | js/cpu_worker.js:401 | the sort keeps entries of equal score in their order |
| WorkerRules.SortPermutesMoves | js/cpu_worker.js:401-402 | the sorted moves are a permutation of the scored moves |
| WorkerRules.OrderedMovesSpec | js/cpu_worker.js:367-403 | the ordered moves are a permutation of the input, with scores non-increasing and equal scores in input order |
| WorkerRules.GainingStepsBeforeWalls | js/cpu_worker.js:367-403 | every step onto the goal row or gaining ground comes before every wall |
| WorkerRules.OrderMoves | js/cpu_worker.js:367-403 | the result is the ordered-moves specification |
| WorkerSearch.OrderKeepsBest | js/cpu_worker.js:462 | searching the moves in a permuted order does not change the best value |
| WorkerSearch.ResetWorkerStats | js/cpu_worker.js:435-442 | the node and cutoff counters start from zero and record the depth |
| WorkerSearch.WorkerMinmax | js/cpu_worker.js:444-518 | a leaf returns the worker's evaluation and counts no cutoff; a node with moves returns a legal move and adds exactly one cutoff of its side (beta when maximising, alpha when minimising) when its window closed, none otherwise; counters only grow; with no threshold the score is fail-soft against the unpruned value, and, asked for it, a score strictly inside the window comes with the first move of the search order that attains it |
| WorkerSearch.SearchOrderResult | js/cpu_worker.js:460-462 | searching the moves in the heuristic order yields the node's value, and the move first attaining the score in that order is the node's chosen move |
| WorkerSearch.WorkerMaxOverMoves | js/cpu_worker.js:464-489 | the maximiser's loop returns one of the moves and a fail-soft score; the counters gain one beta cutoff exactly when alpha raised to the score reaches beta, and no alpha cutoff; with no threshold a score strictly inside the window is the value of the returned move and every earlier move's value is smaller |
| WorkerSearch.WorkerMaxStep | js/cpu_worker.js:468-487 | one pass keeps the loop state; the counters after it are those of the successor's search plus one beta cutoff exactly when the window closed (js/cpu_worker.js:480) |
| WorkerSearch.WorkerMinOverMoves | js/cpu_worker.js:491-516 | the minimiser's loop mirrors it: one alpha cutoff exactly when beta lowered to the score reaches alpha, no beta cutoff, and the returned move the first to attain a score inside the window |
| WorkerSearch.WorkerMinStep | js/cpu_worker.js:495-514 | the minimiser's pass, mirrored: one alpha cutoff exactly when the window closed (js/cpu_worker.js:507) |
| WorkerSearch.BestAlternativeSpec | js/cpu_worker.js:536-552 | an alternative exists exactly when some move does not reverse the last move; it is such a move and none scores higher |
| WorkerSearch.BestAlternativeFirst | js/cpu_worker.js:548-551 | of several moves of highest score the first is chosen |
| WorkerSearch.FindBestAlternative | js/cpu_worker.js:536-552 | the loop's result is the best-alternative specification |
| WorkerSearch.AvoidReversal | js/cpu_worker.js:531-557 | the result changes only for a step back to the last origin; the substitute is never that reversal; it is taken only above score minus 20 |
| WorkerSearch.FullWindowExact | js/cpu_worker.js:529 | a fail-soft score over the full window is the exact value |
| WorkerSearch.WorkerGetBestMoveMinMax | js/cpu_worker.js:520-561 | defaults of depth 2 and an infinite threshold; fresh counters; a legal move; with an infinite threshold, unless the guard replaced a reversal, the minimax value and the first move of the search order that attains it |
| WorkerSearch.RecordLastMoveAsWritten | js/cpu_worker.js:51 | the handler writes slot 0 and leaves slot 1 unchanged |
| WorkerSearch.AsWrittenPlayerOneUnguarded | js/cpu_worker.js:51 | as written, slot 1 stays empty, so no reversal by player 1 is ever recognised |
| WorkerSearch.RecordLastMove | js/cpu_worker.js:51 | the report goes to the mover's slot and the other slot is unchanged |
| WorkerSearch.RecordLastMoveGuardsMover | js/cpu_worker.js:532-534 | once recorded in the mover's slot, the step back to the reported origin is a reversal for either player |
| WorkerSearch.SearchWorker.constructor | js/cpu_worker.js:40 | a new worker has no last move for either player |
| WorkerSearch.SearchWorker.ClearHistory | js/cpu_worker.js:69-70 | clearing forgets both last moves |
| WorkerSearch.SearchWorker.HandleSearch | js/cpu_worker.js:46-72 | as written: the report goes to slot 0 whoever is to move, slot 1 is unchanged, and the reply is the root search guarded by the mover's slot, so by the report for player 0 and by the old slot 1 for player 1 |
| WorkerSearch.SearchWorker.HandleSearchInMoverSlot | js/cpu_worker.js:46-72 | corrected handler: the report goes to the mover's slot, and the reply is the root search guarded by that report |
| Serial.Split | js/game.js:117 | splitting gives at least one piece and no piece holds the separator |
| Serial.SplitJoin | js/game.js:111-117 | splitting undoes joining when no piece holds the separator |
| Serial.SplitTrailing | js/game.js:117 | an extra separator at the end adds one empty piece |
| Serial.TrimNoSpace | js/game.js:117 | trimming leaves a text without white space unchanged |
| Serial.IntText | js/game.js:97-107 | a number's text is non-empty and holds no white space, ',' or ';' |
| Serial.ParseIntText | js/game.js:123-157 | reading back the text of an integer gives the integer |
| Serial.GridEntries | js/game.js:93-102 | every listed wall is a non-empty intersection with its direction |
| Serial.GridEntriesOrdered | js/game.js:93-102 | the walls are listed in row-major order |
| Serial.GridEntryIndex | js/game.js:93-102 | every non-empty intersection is listed |
| Serial.ExportState | js/game.js:87-112 | the loop's result is the export text |
| Serial.ExportRow | js/game.js:94-101 | a row appends the texts of its walls, left to right |
| Serial.ParsePlayer | js/game.js:123-132 | an accepted player part is an on-board cell with 0..10 walls |
| Serial.ParseWallPart | js/game.js:153-163 | an accepted wall part is an in-range intersection with a direction |
| Serial.Import | js/game.js:115-177 | an accepted text gives a new game with the tokens, walls and player to move it names |
| Serial.ImportState | js/game.js:115-177 | the reading loop's result is the import specification |
| Serial.ParseWallsSpec | js/game.js:150-170 | the wall parts are accepted exactly when each non-empty part reads and no intersection is named twice; the grid then holds exactly the named walls |
| Serial.ImportSpec | js/game.js:115-177 | a text is accepted exactly when it has three parts, both players read and differ, the turn is 0 or 1 and the wall parts fit; the walls are then exactly the named ones |
| Serial.ExportTextSplits | js/game.js:104-117 | the exported line needs no trimming and splits back into its parts |
| Serial.ExportImportRoundTrip | js/game.js:87-177 | importing an export gives the tokens, walls and player to move in a new game, and re-exporting gives the same text |
| Serial.OpeningText | js/game.js:87-177 | the opening is written "4,0,10;4,8,10;0" and reads back as the opening |
| Serial.TrailingSeparatorIgnored | js/game.js:150-151 | a trailing ';' adds an empty wall part, which is skipped |
| Serial.StackedWallsRead | js/game.js:160-169 | the importer does not check wall spacing: two adjacent same-direction walls read back |
| Input.TruncRem | js/input.js:51-61 | the remainder has the sign of the dividend, is smaller than the divisor in size, and differs from the dividend by a multiple of the divisor |
| Input.CycleStaysInRange | js/input.js:51-61 | a mode in 0..2 stays in 0..2, 2 wraps to 0, and the cycle returns after exactly three steps |
| Input.InputToggleInvolution | js/input.js:43-45 | toggling the input mode twice restores it |
| Input.WheelFlips | js/input.js:397-404 | the wheel swaps vertical and horizontal, and twice restores the direction |
| Input.ResetKeepsSettings | js/input.js:34-41 | a reset clears the transient fields, keeps the input mode, wall direction and display settings, and is idempotent |
| Input.UIState.constructor | js/input.js:3-32 | the initial UI state |
| Input.UIState.Reset | js/input.js:34-41 | the new view is the reset of the old one |
| Input.UIState.ToggleInputMode | js/input.js:43-45 | only the input mode changes, to the other mode |
| Input.UIState.ToggleShowPaths | js/input.js:47-49 | only the path display flag changes, negated |
| Input.UIState.CycleDistanceMapMode | js/input.js:51-53 | only the distance-map mode changes, to the next one mod 3 |
| Input.UIState.ToggleWallEvaluations | js/input.js:55-57 | only the wall-evaluation display flag changes, negated |
| Input.UIState.CycleLockedDistanceMode | js/input.js:59-61 | only the locked-distance mode changes, to the next one mod 3 |
| Input.UIState.ToggleBestMove | js/input.js:63-65 | only the best-move display flag changes, negated |
| Input.EditToggleEffect | js/input.js:362-385 | no other intersection changes; an empty cell takes the direction iff the basic check passes; the same direction clears; the other direction is replaced iff the check passes after clearing, else restored |
| Input.EditToggleKeepsSpacing | js/input.js:362-385 | the toggle keeps same-direction walls apart |
| Input.EditToggleRoundTrip | js/input.js:366-373 | toggling in a wall and then toggling it again restores the grid |
| Input.InputHandler.constructor | js/input.js:99-103 | the handler refers to the given game and UI state |
| Input.InputHandler.ToggleEditWallAt | js/input.js:362-385 | the game changes only in its grid, to the toggled grid |
| Input.InputHandler.HandleWheel | js/input.js:397-404 | only the wall direction changes, to the other direction |
| History.Removed | js/main_mobile.js:42-49 | an undo removes nothing for a count below one, else the count or the whole stack if shorter |
| History.AfterUndo | js/main_mobile.js:42-49 | the stack after an undo is a prefix of the old one |
| History.Top | js/main_mobile.js:46-48 | the top is none exactly for the empty stack, else the last entry |
| History.UndoAfterSaves | js/main_mobile.js:38-49 | undoing as many as were saved restores the stack and its top |
| History.UndoComposes | js/main_mobile.js:42-49 | two undos remove as much as one undo of both counts |
| History.UndoExact | js/main_mobile.js:42-53 | with enough entries, undo removes exactly the count and keeps the rest in order |
| History.MoveHistory.constructor | js/main_mobile.js:34-36 | the stack starts empty |
| History.MoveHistory.SaveState | js/main_mobile.js:38-40 | the stack grows by the state's copy on top |
| History.MoveHistory.Undo | js/main_mobile.js:42-49 | the stack becomes the undo specification, and the result is the new top |
| History.MoveHistory.Clear | js/main_mobile.js:55-57 | the stack is empty |
| History.MobileState.constructor | js/main_mobile.js:14-22 | one-player mode, player first, not thinking, nothing dragged |
| History.MobileState.Reset | js/main_mobile.js:24-29 | thinking and dragging cleared, mode and first player kept |
| History.RestoredKeepsCounters | js/main_mobile.js:196-201 | restoring copies only tokens, walls, player to move and winner |
| History.HandleUndo | js/main_mobile.js:192-205 | acts only when the stack holds at least 2 entries (one player) or at least 1 (two players); then pops that many and, when a state is left, restores it and resets the UI; otherwise nothing changes |
| History.OnePlayerUndoReturns | js/main_mobile.js:192-205 | against the computer, one undo takes back the player's and the computer's turns |

## Left out

- Rendering, DOM events, touch handlers, timers, popups and clipboard
  access are not modelled. The pixel fields of the UI state are left out:
  `dragOffset`, `dragPos`, `draggingWall` and `canvasOffset`.
- The hover and pixel methods of `InputHandler` are not modelled. Neither
  are `toggleP2Cpu`, `toggleCpuVsCpu` and `resetCpuSchedule`, which change
  global configuration and log.
- The worker's `postMessage` plumbing is not modelled. The reported last
  move and the request settings are parameters of
  `WorkerSearch.SearchWorker.HandleSearch`, and the result is its return
  value.
- Timing, logging and display formatting are not modelled:
  `performance.now`, the search-statistics log and `formatStateForDisplay`.
- The global configuration (`cpuConfig`, `searchStats`) becomes
  parameters and returned counters.
- Evaluation weights are `real` and `wallPower` is a `nat`. A fractional
  exponent and IEEE infinity arithmetic are not modelled; plus and minus
  infinity are the explicit `Search.Ext` values.
- Serial.ParsePlayer: only integer tokens are accepted, as an optional
  minus sign and digits. The leniency of `Number` in js/game.js:123 and
  js/game.js:129 is refused: `Number("")` is 0, "4.5" and "+5" are
  accepted, and white space around a field ("4, 0, 10") is ignored.
- Serial.ParseTurn: the turn field must be exactly an integer token;
  `parseInt` at js/game.js:140 also accepts leading white space and
  trailing garbage such as "1x".
- Serial.ParseWallPart: the coordinates must be exactly integer tokens;
  `parseInt` at js/game.js:156-157 also accepts leading white space and
  trailing garbage such as "3a".
- Serial.Import: a NaN stock passes the source's `< 0 || > 10` test but is
  refused here, because the model has no NaN.
- Serial.TrimNoSpace: trimming removes the ASCII white space (space, tab,
  LF, VT, FF, CR) only, not the other Unicode spaces and line terminators
  JavaScript's `trim` also removes (U+00A0, U+2028, U+FEFF and the like).
- Game.GameState.Clone: clones are proved equal field by field and fresh.
  The game's arrays are Dafny sequences (values), so "shares no arrays" is
  automatic rather than proved.
- History.MoveHistory.SaveState: the stack holds `State` values. Aliasing
  between a saved clone and the live game cannot arise, so it is not
  modelled.
- Input.InputHandler.ToggleEditWallAt requires an in-range intersection.
  The source would index outside the grid there.
- Board.ExecuteWallPlacement requires an in-range intersection, for the
  same reason.
- Input.TruncRem: JavaScript `%` truncates toward zero. It is written out
  for negative operands, which the mode counters never reach.
- Locked.LockedAtMeaning: the equivalence with "a single route that no
  wall lengthens" is proved only within 21 steps of the goal row. Beyond
  that, the route count's depth limit of 20 stops the descent and counts
  one route.
- Paths.CountShortestPathsSound: exactness up to 2 is proved only within
  the same depth limit.
- The search methods require both tokens on the board (`WellFormed`). The
  source reads the distance map at the token's cell and has no defined
  behaviour otherwise.
- The worker's `applyMoveToState` and `cloneState` are the game's
  (`Board.ApplyMoveToState` on values), because the two copies agree.
  The worker's `isValidCell`, `isBlocked`, `checkVictory` and
  `getDiagonalMoves` are likewise the shared `Geometry`/`Board`
  definitions.
- The search's node counters are returned as a `Search.Stats` value, not
  kept in a global object.
- Search.GetBestMoveMinMax: with a finite prune threshold the move is only
  stated to be legal. Which move a loop cut short by the threshold keeps is
  not pinned.
- Search.Minmax: the returned move is pinned as the first to attain the
  score only when there is no threshold and the score lies strictly inside
  the window. At a cutoff the move is only stated to be legal.
- WorkerSearch.WorkerGetBestMoveMinMax: with a finite prune threshold the
  move is only stated to be legal. When the reversal guard replaces the
  move, the substitute is stated to be the best alternative, not the first
  to attain the minimax value.
- WorkerSearch.WorkerMinmax: the cutoff counters are pinned node by node.
  A node's own cutoff is stated exactly; the cutoffs of the subtree are
  bounded by the nodes searched, not counted one by one.

## Findings

| source | as written | input that shows it | evidently intended | confidence | as-written member | corrected member |
|---|---|---|---|---|---|---|
| js/cpu_worker.js:51 | the search handler stores the reported last move in `lastMoveHistory[0]` whatever the player to move, while the reversal guard at js/cpu_worker.js:532 reads `lastMoveHistory[playerIndex]` | player 1 to move, having stepped from (4, 7): slot 1 stays empty, so the search's proposal to step back to (4, 7) is not recognised as a reversal | store the report in the mover's slot, `lastMoveHistory[state.currentPlayer]` | medium; not executed | WorkerSearch.AsWrittenPlayerOneUnguarded, WorkerSearch.SearchWorker.HandleSearch | WorkerSearch.RecordLastMoveGuardsMover, WorkerSearch.SearchWorker.HandleSearchInMoverSlot |

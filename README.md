# uColumnsTutorial game core in Dafny

This project models the gameplay core of uColumnsTutorial, a "Columns"-style
falling-block match-3 game built on Unreal Engine. It proves properties of that model.

- **Grid.** The board is a flat array of `cols * rows` cells, indexed bottom-up as `row * cols + column`.
  - Each cell remembers its top-down tile-map coordinates.
  - Each cell may hold a block of some type id.
- **Player piece.** The player steers a vertical piece of `PlayerPieceSize` blocks. It falls down one column, can be moved sideways, and rotates its blocks (`ShiftUp` / `ShiftDown`).
- **Landing and matching.** When the piece lands, its blocks are written into the grid above the column's floor. Every landed cell is then scanned along four axes, and a run of at least `MinimumMatchRunSize` same-type blocks is matched.
- **Clearing.** Matched blocks blink for a while and are removed. The blocks above the holes fall down (gravity compaction), and the cells they reach are scanned again for chained matches.
- **Score.** Each match adds `matched * scorePerBlock * bonus` to the player's score. The bonus multiplier grows with each chained match and is reset when a new piece spawns.
- **Traditional mode.** This variant starts with `initialFloor` rows pre-filled so that no run exists. It loses when the spawn column has no room for a new piece, and it speeds the fall up after each landing.

## The model, file by file

- `wrappers.dfy`: `Option`.
- `numeric.dfy`: float-to-int truncation and ceiling, and clamping.
- `helpers.dfy`: the value structs of `helpers.h`: `FTiming` (`Timing`), `FGridCellData` (`GridCell`), `FRepositioningBlock` and `FHighScoreContainer`.
  - They are copied by value in the original.
  - Each is a datatype whose updating members return the new value, which the owner stores back.
- `block.dfy`: class `Block` (`ABlock`): type id, location, original and final positions, and threshold interpolation.
- `player_piece.dfy`: class `PlayerPiece` (`FPlayerPiece`).
  - It holds an `array<Block?>` of slots, the column, the flags and the two timers.
  - Its loops are proved against the rotation functions `RotateUp` / `RotateDown`.
- `grid.dfy`: cell indexing and its inverse, the tile-map layout, the eight walking directions, and the directional run counter `Run` that specifies the eight `Get*Match` loops.
- `matching.dfy`: the four match axes, `AddUnique` accumulation and the matched set built from the landed cells.
- `floors.dfy`: the column floor that `CheckGridFloorLevels` computes.
- `gravity.dfy`: gravity compaction of one column.
  - `Packed` is an independent reference definition: occupied cells in order, then empties.
  - The proof shows that clearing the moved cells and re-placing the moves gives exactly `Packed`.
- `traditional.dfy`: the Traditional-mode spawn rule `Allowed` (`SpawnAllowed`) and why a board built only of allowed placements has no match.
- `controller.dfy`: class `PlayerController` (`AColPlayerController`): score and display-score catch-up.
- `library.dfy`: the `UColBPLibrary` settings getters with their fallbacks, the `ChangeScore` wrapper, and the high-score update (class `HighScoreTable` holding the map it mutates).
- `rules.dfy`: the state datatype and successor relation, and the specification functions for the grid updates of each state. This covers landing, removal, row clearing, repositioning arrivals and gravity, with the board invariants these keep. It also has the Traditional loss and speed rules, the score delta and the side-move probe, and `Tuning`, the designer-editable settings (`DefaultTuning` holds the values the two constructors give them).
- `game_mode.dfy`: class `GameMode` (`AGameModeInGame` with the `AGMInGameTraditional` overrides).
  - Its fields are the grid, floors, landed, matched, repositioning and next-block arrays, plus timers, state and score multiplier.
  - It has one method per state function, the `Tick` dispatch, the input handlers, `RestartGame`, and the loops of the counters, collectors, floor scan, gravity and initial fill.
  - Each loop is proved against the specification functions above.
  - `Snapshot()` records the mode at the start of a frame. The predicates `GameInitRan` … `GameLostRan`, gathered in `StateFunctionRan`, state each state function's effect from that record, and `Tick` and its dispatchers carry them out.
  - `Valid()` is the class invariant. It covers the board size, the tile-map coordinates, floors that hold (every cell at or above a floor is empty), and the per-state facts about the landed, matched and repositioning arrays.

Parameters stand in for what the model cannot see:
- `draw: nat -> int` is the random block picker, and `drawCount` counts its calls.
- `fieldLocation` and `scaledCellSize` describe the play field's world layout.
- `speedCurve` is the Traditional speed-curve asset.
- `config` is the game instance's settings, or `None` when there is no game instance.
- `pc` is the player controller, which may be null.
- `tuning` is the mode's designer-editable settings.

## Model

| member | source | states |
|---|---|---|
| Numeric.TruncToInt | Source/uColumnsTutorial/PlayerPiece.cpp:113-116 | the float-to-int32 conversion truncates toward zero: the result is the integer part, below or above x by less than one |
| Numeric.CeilToInt | Source/uColumnsTutorial/GameModeInGame.cpp:827 | `CeilToInt` gives the least integer not below x |
| Numeric.Clamp | Source/uColumnsTutorial/GMInGameTraditional.cpp:68 | the result lies in [lo, hi]; it is x when x is inside, lo below and hi above |
| Helpers.Timing.Default | Source/uColumnsTutorial/helpers.h:42-45 | a default timer has limit 0.5 and nothing elapsed |
| Helpers.Timing.Set | Source/uColumnsTutorial/helpers.h:47-51 | the new limit is stored and the elapsed time restarts at 0 |
| Helpers.Timing.Reset | Source/uColumnsTutorial/helpers.h:53 | the elapsed time restarts at 0 and the limit is kept |
| Helpers.Timing.Advance | Source/uColumnsTutorial/helpers.h:57 | the elapsed time grows by delta and the limit is kept |
| Helpers.Timing.Progress | Source/uColumnsTutorial/helpers.h:58 | the progress is elapsed/limit, uncapped; a zero limit gives positive infinity |
| Helpers.Timing.Update | Source/uColumnsTutorial/helpers.h:55-59 | the timer after the update is the advanced timer, and the value returned is its progress |
| Helpers.UpdateReachedIff | Source/uColumnsTutorial/helpers.h:55-59 | with a positive limit, an update reports alpha >= 1 exactly when the elapsed time reaches the limit |
| Helpers.UpdateMonotone | Source/uColumnsTutorial/helpers.h:55-59 | with a positive limit, a non-negative update never lowers the progress |
| Helpers.UpdatesCompose | Source/uColumnsTutorial/helpers.h:57 | two updates by d1 and d2 leave the timer where one update by d1 + d2 does |
| Helpers.EmptyCell | Source/uColumnsTutorial/helpers.h:19-23 | a new cell record holds the given tile-map column and row and no block |
| Helpers.NewRepositioning | Source/uColumnsTutorial/helpers.h:70-76 | a new repositioning record has its timer set to the limit with nothing elapsed, holds the cell index and block, and is not finished |
| Blocks.Lerp | Source/uColumnsTutorial/Block.cpp:68 | interpolation gives the start at alpha 0 and the end at alpha 1 |
| Blocks.LerpBetween | Source/uColumnsTutorial/Block.cpp:68 | for alpha in [0, 1] the interpolated value stays between the two ends |
| Blocks.Distance | Source/uColumnsTutorial/PlayerPiece.cpp:105 | the absolute difference: non-negative and equal to one of the two signed differences |
| Blocks.Interpolated | Source/uColumnsTutorial/Block.cpp:72-81 | the coordinate an interpolation yields: the final one once alpha reaches 1, the original one at alpha 0 |
| Blocks.Block.GetTypeID | Source/uColumnsTutorial/Block.cpp:40-43 | the type id last set (see `InitTypeID`) |
| Blocks.Block.IsSameTypeID | Source/uColumnsTutorial/Block.h:34 | true exactly when the given id is the block's type id |
| Blocks.Block.constructor | Source/uColumnsTutorial/Block.cpp:14-22 | a new block stands at its spawn location with zeroed original and final positions |
| Blocks.Block.InitTypeID | Source/uColumnsTutorial/Block.cpp:24-27 | `GetTypeID` afterwards returns the id that was set |
| Blocks.Block.IsSameType | Source/uColumnsTutorial/Block.cpp:35-38 | true exactly when the other block exists and has the same type id; a null block is never the same type |
| Blocks.Block.SwapWith | Source/uColumnsTutorial/Block.cpp:45-59 | a null partner changes nothing; otherwise location, original and final position are exchanged, and both type ids are kept |
| Blocks.Block.InterpolateHorizontal | Source/uColumnsTutorial/Block.cpp:61-70 | returns true exactly when alpha >= 1, outputting the final X; otherwise it outputs the X interpolated between original and final |
| Blocks.Block.InterpolateVertical | Source/uColumnsTutorial/Block.cpp:72-81 | the same for Z |
| Blocks.Block.InitOriginalPosition | Source/uColumnsTutorial/Block.h:46 | the original position becomes the current location; nothing else changes |
| Blocks.Block.SetupHorizontal | Source/uColumnsTutorial/Block.h:47 | only the final X changes |
| Blocks.Block.SetupVertical | Source/uColumnsTutorial/Block.h:48 | only the final Z changes |
| Blocks.IsSameTypeSymmetric | Source/uColumnsTutorial/Block.cpp:35-38 | `a.IsSameType(b)` holds exactly when `b.IsSameType(a)` does |
| Blocks.SwapTwiceRestores | Source/uColumnsTutorial/Block.cpp:45-59 | swapping two blocks twice restores every position and type id of both |
| Piece.RotateUp | Source/uColumnsTutorial/PlayerPiece.cpp:56-64 | the rotation keeps the length |
| Piece.RotateDown | Source/uColumnsTutorial/PlayerPiece.cpp:66-74 | the rotation keeps the length |
| Piece.RotateUpAt | Source/uColumnsTutorial/PlayerPiece.cpp:56-64 | after `ShiftUp`, slot 0 holds the old last block and slot i the old slot i-1 |
| Piece.RotateDownAt | Source/uColumnsTutorial/PlayerPiece.cpp:66-74 | after `ShiftDown`, slot i holds the old slot i+1 and the last slot the old slot 0 |
| Piece.RotationsInverse | Source/uColumnsTutorial/PlayerPiece.cpp:56-74 | `ShiftDown` undoes `ShiftUp` and vice versa |
| Piece.RotationsPermute | Source/uColumnsTutorial/PlayerPiece.cpp:56-74 | both rotations keep the same multiset of blocks |
| Piece.PlaceVertically | Source/uColumnsTutorial/PlayerPiece.cpp:93-100 | block k's final Z becomes the start plus k offsets, its original position its current location; nothing else changes |
| Piece.MoveBlocks | Source/uColumnsTutorial/PlayerPiece.cpp:29-46 | the block loop of `Tick`: landed iff vertical alpha >= 1; every Z is interpolated with that alpha; X is interpolated while side-moving, forced to the final X once landed or finished, and left at block 0's X otherwise |
| Piece.PlayerPiece.constructor | Source/uColumnsTutorial/PlayerPiece.h:20-24 | a new piece is not side-moving, not landed, has multiplier 1 and default timers |
| Piece.PlayerPiece.InitArray | Source/uColumnsTutorial/PlayerPiece.cpp:12-20 | the slot array has exactly `size` slots (none for a negative size), all empty; other fields unchanged |
| Piece.PlayerPiece.SpawnPiece | Source/uColumnsTutorial/PlayerPiece.h:30-40 | slot i holds the i-th spawned block, the size is kept, landed and side-moving flags are cleared |
| Piece.PlayerPiece.Clear | Source/uColumnsTutorial/PlayerPiece.cpp:119-126 | every slot of the piece is emptied |
| Piece.PlayerPiece.SetCurrentColumn | Source/uColumnsTutorial/PlayerPiece.h:48-49 | `GetCurrentColumn` afterwards returns the column that was set |
| Piece.PlayerPiece.SetVerticalAlphaMultiplier | Source/uColumnsTutorial/PlayerPiece.h:64 | only the multiplier changes |
| Piece.PlayerPiece.GetHorizDiff | Source/uColumnsTutorial/PlayerPiece.cpp:103-106 | the non-negative distance between the destination and block 0's X |
| Piece.PlayerPiece.GetVertDiff | Source/uColumnsTutorial/PlayerPiece.cpp:108-111 | the non-negative distance between the destination and block 0's Z |
| Piece.PlayerPiece.GetPieceZ | Source/uColumnsTutorial/PlayerPiece.cpp:113-116 | block 0's Z truncated toward zero: at or below Z by less than one for a non-negative Z, at or above Z by less than one for a negative Z |
| Piece.PlayerPiece.GetCurrentColumn | Source/uColumnsTutorial/PlayerPiece.h:49 | the column last set (see `SetCurrentColumn`) |
| Piece.PlayerPiece.HasLanded | Source/uColumnsTutorial/PlayerPiece.h:60 | the landed flag, which `Tick` raises exactly when the vertical alpha reaches 1 |
| Piece.PlayerPiece.SwapBlocks | Source/uColumnsTutorial/PlayerPiece.cpp:50-54 | the two slots exchange their blocks while every slot keeps its location, original and final position |
| Piece.PlayerPiece.ShiftUp | Source/uColumnsTutorial/PlayerPiece.cpp:56-64 | the slots become `RotateUp` of the old slots; every slot keeps its positions; type ids kept |
| Piece.PlayerPiece.ShiftDown | Source/uColumnsTutorial/PlayerPiece.cpp:66-74 | the slots become `RotateDown` of the old slots; every slot keeps its positions; type ids kept |
| Piece.PlayerPiece.SideMove | Source/uColumnsTutorial/PlayerPiece.cpp:76-84 | the horizontal timer is set, the side-moving flag raised, and every block gets the same final X; nothing else changes |
| Piece.PlayerPiece.VerticalMove | Source/uColumnsTutorial/PlayerPiece.cpp:86-101 | the vertical timer is set; block i's final Z is `z + i * (Z1 - Z0)` and its original position its current location |
| Piece.PlayerPiece.Tick | Source/uColumnsTutorial/PlayerPiece.cpp:22-47 | the vertical timer advances by dt times the multiplier, the horizontal one by dt while side-moving; landed iff the vertical alpha >= 1; positions as in `MoveBlocks`, with horizontal motion forced to finish once landed |
| Grid.CellIndex | Source/uColumnsTutorial/GameModeInGame.cpp:272-280 | -1 exactly for a column or row outside the grid; otherwise an index inside the grid |
| Grid.DivModInRange | Source/uColumnsTutorial/GameModeInGame.cpp:282-293 | for an index inside the grid, index / cols is a row and index % cols a column that rebuild it |
| Grid.IndexDivMod | Source/uColumnsTutorial/GameModeInGame.cpp:272-293 | for a cell inside the grid, `row * cols + column` divides back into row and column |
| Grid.ColumnRow | Source/uColumnsTutorial/GameModeInGame.cpp:282-293 | an index inside the grid maps to a cell whose `CellIndex` is that index; any other index gives (-1, -1) |
| Grid.CellIndexRoundTrip | Source/uColumnsTutorial/GameModeInGame.cpp:272-293 | `GetColumnRowFromCellIndex(GetCellIndex(c, r)) == (c, r)` for every cell |
| Grid.CellIndexInjective | Source/uColumnsTutorial/GameModeInGame.cpp:272-280 | two cells with the same index are the same cell |
| Grid.TileMapNext | Source/uColumnsTutorial/GameModeInGame.cpp:104-115 | the construction loop's step: the tile-map column advances and wraps to 0 one row up the tile map |
| Grid.TileMapFlipsRows | Source/uColumnsTutorial/GameModeInGame.cpp:104-115 | cell (c, r) gets tile-map coordinates (c, rows - 1 - r) |
| Grid.Direction.Opposite | Source/uColumnsTutorial/GameModeInGame.cpp:306-504 | the opposite direction negates both steps |
| Grid.Direction.IndexStep | Source/uColumnsTutorial/GameModeInGame.cpp:306-504 | the index step of a direction is `drow * cols + dcol` |
| Grid.RunFromCells | Source/uColumnsTutorial/GameModeInGame.cpp:306-504 | every cell the run counts is in the grid and holds the type |
| Grid.RunFromStops | Source/uColumnsTutorial/GameModeInGame.cpp:306-504 | the run stops at the edge, an empty cell or a different type |
| Grid.ReachStep | Source/uColumnsTutorial/GameModeInGame.cpp:306-504 | one step in a direction shortens the distance to the edge by one |
| Grid.RunFromWithinReach | Source/uColumnsTutorial/GameModeInGame.cpp:306-504 | a run never exceeds the distance to the edge |
| Grid.RunBounds | Source/uColumnsTutorial/GameModeInGame.cpp:306-504 | each counter returns between 0 and the distance to the edge in its direction (column, cols-1-column, row or rows-1-row) |
| Grid.RunMeaning | Source/uColumnsTutorial/GameModeInGame.cpp:306-504 | the n cells after the origin hold the type and the (n+1)-th does not or is off the grid |
| Matching.Axis.Forward | Source/uColumnsTutorial/GameModeInGame.cpp:622-691 | each axis collector walks forward in the direction opposite to the one it counts back in |
| Matching.Progression | Source/uColumnsTutorial/GameModeInGame.cpp:632-636 | the indices a collector loop visits: n indices from the start, one step apart |
| Matching.WalkIndex | Source/uColumnsTutorial/GameModeInGame.cpp:622-691 | k steps in a direction move the cell index by k index steps |
| Matching.WalkBackwards | Source/uColumnsTutorial/GameModeInGame.cpp:622-691 | walking -k steps is walking k steps the opposite way |
| Matching.WalkDistinct | Source/uColumnsTutorial/GameModeInGame.cpp:622-691 | different step counts along a direction reach different cells |
| Matching.AxisRunCell | Source/uColumnsTutorial/GameModeInGame.cpp:622-691 | every cell between the two run ends of an axis holds the type |
| Matching.AxisMatchIndex | Source/uColumnsTutorial/GameModeInGame.cpp:622-691 | the i-th collected index is the back end of the run plus i steps forward |
| Matching.AxisMatchCell | Source/uColumnsTutorial/GameModeInGame.cpp:622-691 | the i-th collected index is the cell i steps from the run's back end and holds the type |
| Matching.AxisMatchMeaning | Source/uColumnsTutorial/GameModeInGame.cpp:622-691 | an axis adds cells iff back + forward + 1 reaches the minimum run; it then adds exactly that many distinct cells, all holding the type, and the run is maximal at both ends |
| Matching.AddAllUniqueMeaning | Source/uColumnsTutorial/GameModeInGame.cpp:632-636 | `AddUnique` of a list keeps the old entries as a prefix, contains exactly the old entries and the new ones, and introduces no duplicates |
| Matching.AddAllUniqueAppend | Source/uColumnsTutorial/GameModeInGame.cpp:632-636 | adding two lists one after the other equals adding their concatenation |
| Matching.CellMatchesMembers | Source/uColumnsTutorial/GameModeInGame.cpp:517-527 | the cells collected for one landed cell are exactly the union of its four axis matches |
| Matching.LandedMatchesMembers | Source/uColumnsTutorial/GameModeInGame.cpp:510-527 | the cells collected over all landed cells are exactly those in some axis match of some landed cell |
| Matching.LandedMatchesSound | Source/uColumnsTutorial/GameModeInGame.cpp:510-527 | every collected cell lies in an axis match of a landed cell |
| Matching.LandedMatchesComplete | Source/uColumnsTutorial/GameModeInGame.cpp:510-527 | every cell of an axis match of a landed cell is collected |
| Matching.MatchedSetMeaning | Source/uColumnsTutorial/GameModeInGame.cpp:507-536 | the matched set has no duplicates, contains exactly the axis-match cells of the landed cells, and only occupied cells |
| Matching.MatchedSetOk | Source/uColumnsTutorial/GameModeInGame.cpp:507-536 | the matched set is duplicate-free and names occupied cells only, so it can be removed safely |
| Floors.FloorScanMeaning | Source/uColumnsTutorial/GameModeInGame.cpp:549-565 | the downward scan stops at the first occupied cell; it reports -1 only when the top cell is occupied, otherwise the lowest row from which the column is empty |
| Floors.ColumnFloorMeaning | Source/uColumnsTutorial/GameModeInGame.cpp:540-567 | a floor is -1 exactly when the top cell is occupied; otherwise every cell from the floor up is empty and the floor is 0 or sits on an occupied cell |
| Floors.ColumnFloorOfFilled | Source/uColumnsTutorial/GameModeInGame.cpp:540-567 | a column filled solid up to row h and empty above has floor h |
| Gravity.CountSome | Source/uColumnsTutorial/GameModeInGame.cpp:1004-1046 | the number of occupied cells is at most the height scanned |
| Gravity.Somes | Source/uColumnsTutorial/GameModeInGame.cpp:1004-1046 | the occupied cells' blocks, as many as `CountSome` |
| Gravity.Packed | Source/uColumnsTutorial/GameModeInGame.cpp:1004-1046 | the reference result of compaction has the column's height |
| Gravity.Cleared | Source/uColumnsTutorial/GameModeInGame.cpp:1016-1020 | clearing the moved cells keeps the column's height |
| Gravity.Settle | Source/uColumnsTutorial/GameModeInGame.cpp:1079-1082 | placing the moved blocks keeps the column's height |
| Gravity.MoveAt | Source/uColumnsTutorial/GameModeInGame.cpp:1012-1026 | each recorded move comes from an occupied cell with a gap > 0 below it, and its destination is the number of occupied cells below the source |
| Gravity.MovesIncreasing | Source/uColumnsTutorial/GameModeInGame.cpp:1012-1038 | recorded moves have strictly increasing destinations |
| Gravity.SettleAppend | Source/uColumnsTutorial/GameModeInGame.cpp:1079-1082 | moves below the top leave a cell appended on top untouched |
| Gravity.ClearedAppend | Source/uColumnsTutorial/GameModeInGame.cpp:1016-1020 | clearing a column with one more cell on top clears that cell only if it moves |
| Gravity.GravityPacks | Source/uColumnsTutorial/GameModeInGame.cpp:996-1110 | clearing the moved cells and placing every moved block at its destination packs the column: occupied cells in their original order at the bottom, empty cells above |
| Gravity.MovesAppend | Source/uColumnsTutorial/GameModeInGame.cpp:1012-1038 | one more cell on top adds one to the count if occupied, and adds one move exactly when it is occupied and has a gap |
| Gravity.PacksStaying | Source/uColumnsTutorial/GameModeInGame.cpp:1012-1038 | the induction step of `GravityPacks` for a top cell that does not move |
| Gravity.PacksFalling | Source/uColumnsTutorial/GameModeInGame.cpp:1012-1038 | the induction step of `GravityPacks` for a top block that falls into a gap |
| Gravity.ClearedAboveCount | Source/uColumnsTutorial/GameModeInGame.cpp:1004-1046 | after clearing, every cell at or above the new floor is empty |
| Gravity.CountBelowSome | Source/uColumnsTutorial/GameModeInGame.cpp:1004-1046 | fewer blocks lie below an occupied cell than in the whole column, so destinations stay below the new floor |
| Gravity.ScanStep | Source/uColumnsTutorial/GameModeInGame.cpp:1007-1043 | one row of the scan adds one to the new floor when the cell is occupied, and records a move when it also has a gap |
| Gravity.ColumnOf | Source/uColumnsTutorial/GameModeInGame.cpp:1005-1010 | the cells of column c from row 0 up to h, read bottom-up |
| Gravity.ColumnRecords | Source/uColumnsTutorial/GameModeInGame.cpp:1023-1026 | one repositioning record per move, in order |
| Gravity.ColumnRecordsAppend | Source/uColumnsTutorial/GameModeInGame.cpp:1026 | one more move appends one more record |
| Gravity.RecordsStep | Source/uColumnsTutorial/GameModeInGame.cpp:1012-1026 | one row of the scan appends a record exactly when it moves a block |
| Gravity.Record | Source/uColumnsTutorial/GameModeInGame.cpp:1023-1026 | a record's time is gap times the reposition move time, its target is `GetCellIndex(col, new_floor)`, and it is not finished |
| Traditional.StepIndex | Source/uColumnsTutorial/GMInGameTraditional.cpp:75-90 | a step in a direction moves the cell index by that direction's index step |
| Traditional.EarlierStepLowers | Source/uColumnsTutorial/GMInGameTraditional.cpp:75-90 | the four directions `SpawnAllowed` counts in all lead to lower cell indices |
| Traditional.RunFromFrame | Source/uColumnsTutorial/GMInGameTraditional.cpp:75-90 | a run in those directions reads only cells below the start index |
| Traditional.AllowedFrame | Source/uColumnsTutorial/GMInGameTraditional.cpp:75-90 | whether a placement is allowed depends only on the cells filled before it |
| Traditional.NeighbourRunFrame | Source/uColumnsTutorial/GMInGameTraditional.cpp:75-90 | a counted run depends only on the cells below the start index |
| Traditional.RunShift | Source/uColumnsTutorial/GMInGameTraditional.cpp:75-90 | counting back from k cells further along a run gives k more |
| Traditional.RunEnd | Source/uColumnsTutorial/GMInGameTraditional.cpp:75-90 | on a board where every placement was allowed, no axis run through a block reaches the minimum size |
| Traditional.NoMatchWhenAllAllowed | Source/uColumnsTutorial/GMInGameTraditional.cpp:27-33 | a board built only of allowed placements has no match on any axis |
| Traditional.NoRunPastStranger | Source/uColumnsTutorial/GMInGameTraditional.cpp:75-90 | a neighbour of another type, or none, gives a run of 0 |
| Traditional.AllowedTypeExists | Source/uColumnsTutorial/GMInGameTraditional.cpp:27-31 | with at least 5 types and runs of at least 2, some type is allowed at every cell, so the retry loop can succeed |
| Controller.DisplayStep | Source/uColumnsTutorial/ColPlayerController.cpp:22-26 | the display score never passes the current score, and rises by the update rate while that does not overshoot |
| Controller.DisplayCatchesUp | Source/uColumnsTutorial/ColPlayerController.cpp:22-26 | enough ticks bring the display score exactly to the current score |
| Controller.PlayerController.constructor | Source/uColumnsTutorial/ColPlayerController.cpp:11-16 | scores start at 0 and the update rate is 0.1 |
| Controller.PlayerController.Tick | Source/uColumnsTutorial/ColPlayerController.cpp:18-28 | the display score takes one `DisplayStep` and stays at or below the current score |
| Controller.PlayerController.Reset | Source/uColumnsTutorial/ColPlayerController.cpp:30-34 | both scores return to 0 |
| Controller.PlayerController.ChangeScore | Source/uColumnsTutorial/ColPlayerController.cpp:36-40 | the score grows by delta and the new score is returned |
| Library.InstanceDefaults | Source/uColumnsTutorial/ColGameInstance.cpp:17-27 | a new game instance has run size 3 and piece size 3 |
| Library.MinimumMatchRunSize | Source/uColumnsTutorial/ColBPLibrary.cpp:102-109 | the instance's run size, or 3 without an instance |
| Library.PlayerPieceSize | Source/uColumnsTutorial/ColBPLibrary.cpp:119-126 | the instance's piece size, or 3 without an instance |
| Library.InputShiftDelay | Source/uColumnsTutorial/ColBPLibrary.cpp:128-135 | the game instance's setting, or 0.2 without an instance |
| Library.SideMoveDelay | Source/uColumnsTutorial/ColBPLibrary.cpp:137-144 | the game instance's setting, or 0.35 without an instance |
| Library.HorizontalMoveTime | Source/uColumnsTutorial/ColBPLibrary.cpp:146-153 | the game instance's setting, or 0.2 without an instance |
| Library.VerticalMoveTime | Source/uColumnsTutorial/ColBPLibrary.cpp:155-162 | the game instance's setting, or 0.5 without an instance |
| Library.VerticalFastMultiplier | Source/uColumnsTutorial/ColBPLibrary.cpp:164-171 | the game instance's setting, or 5 without an instance |
| Library.RepositionMoveTime | Source/uColumnsTutorial/ColBPLibrary.cpp:173-180 | the game instance's setting, or 0.35 without an instance |
| Library.BlinkingSpeed | Source/uColumnsTutorial/ColBPLibrary.cpp:182-189 | the game instance's setting, or 5 without an instance |
| Library.BlinkingTime | Source/uColumnsTutorial/ColBPLibrary.cpp:191-198 | the game instance's setting, or 0.8 without an instance |
| Library.FallbacksAreInstanceDefaults | Source/uColumnsTutorial/ColBPLibrary.cpp:102-198 | every getter's fallback equals the value a fresh game instance returns |
| Library.ChangeScore | Source/uColumnsTutorial/ColBPLibrary.cpp:210-217 | -1 without a player controller; otherwise the controller's score grows by delta and the new score is returned |
| Library.UpdatedHighScores | Source/uColumnsTutorial/ColBPLibrary.cpp:422-430 | the set of modes is kept, and a known mode gains the score name |
| Library.UpdatedHighScoresMeaning | Source/uColumnsTutorial/ColBPLibrary.cpp:422-430 | an unknown mode leaves the table unchanged; a known mode maps the score name to the new score; every other mode and every other score name is unchanged |
| Library.UpdatedHighScoresIdempotent | Source/uColumnsTutorial/ColBPLibrary.cpp:422-430 | repeating the same update changes nothing |
| Library.HighScoreTable.constructor | Source/uColumnsTutorial/helpers.h:84-91 | the table holds the given modes |
| Library.HighScoreTable.UpdateHighScore | Source/uColumnsTutorial/ColBPLibrary.cpp:422-430 | the table becomes `UpdatedHighScores` of the old table |
| GameRules.Put | Source/uColumnsTutorial/GameModeInGame.cpp:297-303 | writing a cell changes only that cell's occupant and keeps its tile-map coordinates |
| GameRules.PutOccupant | Source/uColumnsTutorial/GameModeInGame.cpp:297-303 | by column and row: only the written cell changes |
| GameRules.ScannedStep | Source/uColumnsTutorial/GameModeInGame.cpp:1007-1043 | the gravity scan reads each cell before it changes it, and clears exactly the moved cells |
| GameRules.PlaceAll | Source/uColumnsTutorial/GameModeInGame.cpp:1079-1082 | placing blocks keeps the grid size |
| GameRules.PlaceAllAppend | Source/uColumnsTutorial/GameModeInGame.cpp:1079-1082 | placing one more block is one more cell write |
| GameRules.ClearAll | Source/uColumnsTutorial/GameModeInGame.cpp:974-980 | clearing cells keeps the grid size |
| GameRules.PlaceAllMeaning | Source/uColumnsTutorial/GameModeInGame.cpp:1079-1082 | untouched cells keep their contents, every target cell becomes occupied (by its own block when the targets are distinct), and tile-map coordinates are kept |
| GameRules.ClearAllMeaning | Source/uColumnsTutorial/GameModeInGame.cpp:974-980 | exactly the named cells become empty; all else, and every tile-map coordinate, is kept |
| GameRules.PlaceKeepsLanded | Source/uColumnsTutorial/GameModeInGame.cpp:1079-1082 | placing blocks never empties a landed cell |
| GameRules.EmptierKeepsFloors | Source/uColumnsTutorial/GameModeInGame.cpp:974-980 | removing blocks keeps every floor valid |
| GameRules.LandingCells | Source/uColumnsTutorial/GameModeInGame.cpp:904-917 | the k-th landed block goes to `GetCellIndex(column, floor + k)` |
| GameRules.LandingStep | Source/uColumnsTutorial/GameModeInGame.cpp:907-916 | one pass of the landing lambda writes the block at the floor, records the index, and raises the floor by one |
| GameRules.LandingCellsAppend | Source/uColumnsTutorial/GameModeInGame.cpp:904-917 | one more block lands in the next row up |
| GameRules.LandingCellsMeaning | Source/uColumnsTutorial/GameModeInGame.cpp:904-917 | the landing cells are distinct, inside the grid, and are exactly the piece-size rows of the column from the floor up |
| GameRules.LandedTypes | Source/uColumnsTutorial/GameModeInGame.cpp:904-917 | after landing, row floor + k of the column holds block k's type |
| GameRules.LandingMeaning | Source/uColumnsTutorial/GameModeInGame.cpp:891-938 | landing changes only the landing cells, which become landed; tile-map coordinates are kept; the floor rises by the piece size and still holds |
| GameRules.RaisedFloorHolds | Source/uColumnsTutorial/GameModeInGame.cpp:914-916 | a floor raised over the newly filled rows still holds |
| GameRules.RowCells | Source/uColumnsTutorial/GameModeInGame.cpp:1119-1128 | the row-clearing loop visits `GetCellIndex(c, row)` for c = 0 .. cols-1 |
| GameRules.RowPrefix | Source/uColumnsTutorial/GameModeInGame.cpp:272-280 | a cell index lies below `cols * h` exactly when its row lies below h |
| GameRules.RowClearMeaning | Source/uColumnsTutorial/GameModeInGame.cpp:1119-1128 | clearing a row empties that row and changes no other row |
| GameRules.Advanced | Source/uColumnsTutorial/GameModeInGame.cpp:1059-1068 | a finished record is left alone; otherwise its timer advances and it finishes exactly when its alpha reaches 1 |
| GameRules.AdvancedAll | Source/uColumnsTutorial/GameModeInGame.cpp:1057-1088 | every record is advanced in place |
| GameRules.ArrivedCells | Source/uColumnsTutorial/GameModeInGame.cpp:1076-1086 | at most one arrival per record |
| GameRules.ArrivedTypes | Source/uColumnsTutorial/GameModeInGame.cpp:1076-1086 | one arriving block per arrival cell |
| GameRules.ArrivedStep | Source/uColumnsTutorial/GameModeInGame.cpp:1057-1088 | each record appends its cell and block exactly when it arrives during this tick |
| GameRules.ArrivedCellsMeaning | Source/uColumnsTutorial/GameModeInGame.cpp:1076-1086 | a cell is added to the landed array exactly when some record targeting it arrives this tick |
| GameRules.ArrivalsKeepFloors | Source/uColumnsTutorial/GameModeInGame.cpp:1076-1086 | arriving blocks land below their column's floor, so floors keep holding and the arrival cells are occupied |
| GameRules.RepositioningKeepsBoard | Source/uColumnsTutorial/GameModeInGame.cpp:1052-1110 | a repositioning tick keeps the tile map and floors valid, adds occupied cells to the landed array, and leaves valid records |
| GameRules.AllRecordsOk | Source/uColumnsTutorial/GameModeInGame.cpp:996-1050 | every record gravity produces targets a cell below its column's new floor |
| GameRules.GravityFloorsHold | Source/uColumnsTutorial/GameModeInGame.cpp:1046 | after gravity, each column's new floor is its block count, and every cell at or above it is empty |
| GameRules.GravityKeepsBoard | Source/uColumnsTutorial/GameModeInGame.cpp:996-1050 | gravity keeps the tile map, leaves valid floors, and produces valid repositioning records |
| GameRules.RowsAboveEmpty | Source/uColumnsTutorial/GameModeInGame.cpp:1137-1141 | once every row has been cleared, the grid is empty |
| GameRules.FillKeepsAllowed | Source/uColumnsTutorial/GMInGameTraditional.cpp:23-34 | placing an allowed type in the next cell, in row-major order, keeps every placement allowed |
| GameRules.Successor | Source/uColumnsTutorial/GameModeInGame.cpp:787-1145 | the states each state function can return (`Tick` and the dispatchers ensure every frame stays inside it) |
| GameRules.IsGameLost | Source/uColumnsTutorial/GMInGameTraditional.cpp:44-54 | for a floor inside the grid, the game is not lost exactly when every piece-size spawn row at the top of the middle column lies inside the grid and on or above that column's floor |
| GameRules.SpawnCellsFree | Source/uColumnsTutorial/GMInGameTraditional.cpp:44-54 | when the game is not lost, the spawn column has a floor inside the grid and all piece-size spawn rows lie on or above it |
| GameRules.SpeedAfterLanding | Source/uColumnsTutorial/GMInGameTraditional.cpp:66-70 | the clamp of progress + delta to [0, 1]: exactly progress + delta when that lies in [0, 1], 1 above and 0 below; with a non-negative delta it never falls |
| GameRules.SpeedSaturates | Source/uColumnsTutorial/GMInGameTraditional.cpp:66-70 | with a positive delta, n landings with n * delta >= 1 - progress bring the speed progress to 1 |
| GameRules.SpeedStaysAtMax | Source/uColumnsTutorial/GMInGameTraditional.cpp:66-70 | with a non-negative delta, once at 1 the speed progress stays at 1 |
| GameRules.ScoreDelta | Source/uColumnsTutorial/GameModeInGame.cpp:948 | the score delta is `matched * scorePerBlock * bonus`, truncated to an integer |
| GameRules.ScoreGrowsWithBonus | Source/uColumnsTutorial/GameModeInGame.cpp:948 | a larger bonus multiplier never yields a smaller score delta |
| GameRules.SideMoveProbe | Source/uColumnsTutorial/GameModeInGame.cpp:721 | as written, the probed cell index is -1 exactly when the destination column's floor lies outside the grid |
| GameRules.SideMoveProbeOffGrid | Source/uColumnsTutorial/GameModeInGame.cpp:714-721 | a reachable board where the probe index is -1 (see Findings) |
| GameRules.SideMoveTarget | Source/uColumnsTutorial/GameModeInGame.cpp:714-724 | the probe target is the cell (destination column, floor) when that floor lies inside the grid, and none for a full column |
| GameRules.SideMoveTargetAgrees | Source/uColumnsTutorial/GameModeInGame.cpp:714-724 | the corrected target agrees with the probe as written whenever the probe is a real cell |
| GameModes.BackEndIndex | Source/uColumnsTutorial/GameModeInGame.cpp:622-691 | the collectors' start index: the central cell minus the back count along each axis's step (-1, -cols, cols-1, -cols-1) |
| GameModes.TypeIds | Source/uColumnsTutorial/GameModeInGame.cpp:904-917 | the type ids of the piece's blocks, slot by slot |
| GameModes.GameMode.constructor | Source/uColumnsTutorial/GameModeInGame.cpp:23-55 | a new mode has no state yet, an empty grid, floors 0, zeroed timers, bonus 1, and the given sizes and tuning (score per block, chain step, countdown, row-clear delay, speed step) |
| GameModes.GameMode.GetCellLocation | Source/uColumnsTutorial/GameModeInGame.cpp:617-620 | the play field's location of the cell's tile-map cell: column i % cols, row rows - 1 - i / cols |
| GameModes.GameMode.CellLocationFlipsRows | Source/uColumnsTutorial/GameModeInGame.cpp:617-620 | the cell at (c, r), counted from the bottom, is drawn at tile-map column c and row rows - 1 - r |
| GameModes.GameMode.MoveTime | Source/uColumnsTutorial/GameModeInGame.cpp:875 | a distance of one scaled cell takes the per-cell time, and a non-negative distance and rate give a non-negative time |
| GameModes.GameMode.VerticalMoveTimeNow | Source/uColumnsTutorial/GMInGameTraditional.cpp:56-64 | the speed curve at the current progress when there is a curve, otherwise the configured vertical move time |
| GameModes.GameMode.OnConstruction | Source/uColumnsTutorial/GameModeInGame.cpp:100-124 | the grid has `cols * rows` empty cells carrying their tile-map coordinates, and all floors are 0 |
| GameModes.GameMode.BeginPlay | Source/uColumnsTutorial/GameModeInGame.cpp:137-160 | the state becomes GameInit |
| GameModes.GameMode.PickRandomBlock | Source/uColumnsTutorial/GameModeInGame.cpp:198-213 | the next draw of the picker, a type id of the theme |
| GameModes.GameMode.AddBlockToGridData | Source/uColumnsTutorial/GameModeInGame.cpp:297-303 | writes the block when the index is below the grid size and changes nothing otherwise |
| GameModes.GameMode.SpawnBlock | Source/uColumnsTutorial/GameModeInGame.cpp:215-269 | null exactly for an unknown type or a cell outside the grid; otherwise a fresh block of that type at the cell's location shifted by (0, 1, 0), written into the grid only when asked |
| GameModes.GameMode.GetMatch | Source/uColumnsTutorial/GameModeInGame.cpp:306-504 | the counter loop returns the run length `Run` in its direction |
| GameModes.GameMode.CountMatches | Source/uColumnsTutorial/GameModeInGame.cpp:622-691 | the matched array gains the axis match through `AddUnique` |
| GameModes.GameMode.AddRun | Source/uColumnsTutorial/GameModeInGame.cpp:632-636 | the collector loop adds n indices one step apart through `AddUnique` |
| GameModes.GameMode.CheckMatchingBlocks | Source/uColumnsTutorial/GameModeInGame.cpp:507-536 | the matched array becomes the matched set of the landed cells; the result is true iff it is non-empty, and only then is the landed array emptied |
| GameModes.GameMode.CheckGridFloorLevels | Source/uColumnsTutorial/GameModeInGame.cpp:540-567 | every floor becomes `ColumnFloor` of its column |
| GameModes.GameMode.ScanFloor | Source/uColumnsTutorial/GameModeInGame.cpp:549-565 | the inner scan loop computes `ColumnFloor` of one column |
| GameModes.GameMode.RestartGame | Source/uColumnsTutorial/GameModeInGame.cpp:582-613 | every cell is emptied with its tile-map coordinates kept, every floor is 0, the landed, matched and repositioning arrays are empty, every next block is -1, and the state is GameInit |
| GameModes.GameMode.StateStartCountdown | Source/uColumnsTutorial/GameModeInGame.cpp:819-835 | the countdown drops by dt, not below 0; the state becomes Spawning exactly when its ceiling reaches 0 |
| GameModes.GameMode.StateCheckMatch | Source/uColumnsTutorial/GameModeInGame.cpp:941-959 | with a match: blink timer set, score raised by the score delta at the old bonus, bonus raised by the chain delta, state RemovingBlock; without one: nothing changes except the state, Spawning |
| GameModes.GameMode.AwardMatch | Source/uColumnsTutorial/GameModeInGame.cpp:943-956 | the match branch: blink timer set, score raised by the score delta, bonus raised, state RemovingBlock |
| GameModes.GameMode.StateRemovingBlock | Source/uColumnsTutorial/GameModeInGame.cpp:961-994 | the blink timer advances; once its alpha reaches 1 the matched cells are emptied, the matched array is cleared and the state is CheckPlayfield; before that nothing else changes |
| GameModes.GameMode.ClearCells | Source/uColumnsTutorial/GameModeInGame.cpp:974-980 | the removal loop empties exactly the matched cells |
| GameModes.GameMode.StateCheckPlayfield | Source/uColumnsTutorial/GameModeInGame.cpp:996-1050 | per column: moved cells are cleared, the floor becomes the block count, one record per moved block; the state is Repositioning iff a record was made |
| GameModes.GameMode.ApplyGravity | Source/uColumnsTutorial/GameModeInGame.cpp:999-1047 | the column loop's result, with the board invariant and valid records |
| GameModes.GameMode.SettleNext | Source/uColumnsTutorial/GameModeInGame.cpp:1002-1047 | one column of the gravity loop keeps the loop invariant |
| GameModes.GameMode.StateRepositioning | Source/uColumnsTutorial/GameModeInGame.cpp:1052-1110 | the records advance; arriving blocks are placed and their cells appended to the landed array; the state is CheckMatch, with no records left, once all are finished |
| GameModes.GameMode.AdvanceRecords | Source/uColumnsTutorial/GameModeInGame.cpp:1054-1088 | the record loop: records advanced, arrivals placed and landed, finished iff every record is finished |
| GameModes.GameMode.AdvanceRecord | Source/uColumnsTutorial/GameModeInGame.cpp:1059-1087 | one record of that loop keeps the loop invariant |
| GameModes.GameMode.SettleColumn | Source/uColumnsTutorial/GameModeInGame.cpp:1004-1046 | one column: new floor = block count, its records appended, its cells below the old floor cleared where moved, all other cells unchanged |
| GameModes.GameMode.ScanColumn | Source/uColumnsTutorial/GameModeInGame.cpp:1004-1043 | the row loop yields the block count, the records of the column's moves, and the grid with moved cells cleared |
| GameModes.GameMode.ScanRow | Source/uColumnsTutorial/GameModeInGame.cpp:1009-1042 | one row of that loop keeps the loop invariant |
| GameModes.GameMode.StateGameLost | Source/uColumnsTutorial/GameModeInGame.cpp:1112-1145 | the clear timer accumulates; once it reaches the clear time the current row is emptied, the timer keeps the excess and the row moves down; after the bottom row the state is EndGame with an empty grid |
| GameModes.GameMode.ClearGridRow | Source/uColumnsTutorial/GameModeInGame.cpp:1119-1128 | the row loop empties exactly that row |
| GameModes.GameMode.OnRotatePiece | Source/uColumnsTutorial/GameModeInGame.cpp:744-773 | ignored outside Playtime; a zero axis resets the cooldown; while cooling down nothing happens; otherwise the cooldown restarts and the piece rotates down for a negative axis and up for a positive one; the blocks are always a permutation of the old ones |
| GameModes.GameMode.OnSideMove | Source/uColumnsTutorial/GameModeInGame.cpp:695-742 | an accepted move makes the neighbouring column the piece's column, sends every block to that column's floor cell (final X the cell's X, final Z the cell's Z plus the block's slot times the old spacing, starting from where it stands) with times proportional to the distances, keeps every block's type and location, and restarts the cooldown; an ignored one keeps the column, flags, timers and every block's type and positions, and changes only the cooldown, reset on a zero axis; the landed flag and fall multiplier are always kept |
| GameModes.GameMode.AcceptSideMove | Source/uColumnsTutorial/GameModeInGame.cpp:727-740 | the accepted move: column set, side and vertical moves set up with their times, each block's final position stacked on the destination with types and locations kept, cooldown restarted |
| GameModes.GameMode.MovePiece | Source/uColumnsTutorial/GameModeInGame.cpp:727-737 | the piece moves sideways and down to the destination with times proportional to the distances: block k heads for the destination's X and for its Z plus k times the old spacing of blocks 0 and 1, from where it stands; types, locations, the landed flag and the multiplier are kept |
| GameModes.GameMode.LandPiece | Source/uColumnsTutorial/GameModeInGame.cpp:901-917 | the landing loop writes the piece's blocks at the floor, records their cells and raises the floor |
| GameModes.GameMode.LandTypes | Source/uColumnsTutorial/GameModeInGame.cpp:904-917 | the same loop over type ids, proved against `Landed` |
| GameModes.GameMode.StatePlaytime | Source/uColumnsTutorial/GameModeInGame.cpp:891-939 | the piece ticks; on landing its blocks fill the column from the floor, the floor rises, the landed array is those cells, the piece is cleared, speed progress rises, and the state is CheckMatch; otherwise the board is unchanged |
| GameModes.GameMode.Fall | Source/uColumnsTutorial/GameModeInGame.cpp:893-896 | the piece tick: the vertical timer advances and landed iff its alpha reaches 1 |
| GameModes.GameMode.PieceLanded | Source/uColumnsTutorial/GameModeInGame.cpp:898-935 | the landing branch: blocks landed, piece cleared, speed raised, state CheckMatch |
| GameModes.GameMode.LandAndClear | Source/uColumnsTutorial/GameModeInGame.cpp:901-920 | landing keeps the board invariant, the landed cells occupied, and leaves every slot empty |
| GameModes.GameMode.BuildPiece | Source/uColumnsTutorial/GameModeInGame.cpp:857-865 | block k of the new piece has the k-th next type and stands at spawn row + k, and next block k is replaced by a fresh draw |
| GameModes.GameMode.StateSpawning | Source/uColumnsTutorial/GameModeInGame.cpp:837-889 | grid and floors unchanged; when `IsGameLost` holds, GameLost with the top row next to clear, the clear timer at 0 and no draw made; otherwise Playtime with the piece spawned (`PieceSpawned`: the old next types in the middle column, next blocks the following draws, falling to the floor over `MoveTime` at `VerticalMoveTimeNow`), both input timers 0 and bonus 1 |
| GameModes.GameMode.SpawnNewPiece | Source/uColumnsTutorial/GameModeInGame.cpp:852-888 | the spawn branch: grid and floors unchanged, Playtime with `PieceSpawned` of the old next types and draw count, both input timers 0 and bonus 1 |
| GameModes.GameMode.PlaceFallingPiece | Source/uColumnsTutorial/GameModeInGame.cpp:852-877 | the piece is spawned in the middle column and set falling to that column's floor |
| GameModes.GameMode.StartFall | Source/uColumnsTutorial/GameModeInGame.cpp:874-877 | the vertical move toward the destination, its time proportional to the distance |
| GameModes.GameMode.EnterPlaytime | Source/uColumnsTutorial/GameModeInGame.cpp:879-888 | both input timers and the bonus are reset, then the state is Playtime |
| GameModes.GameMode.PlaceNewPiece | Source/uColumnsTutorial/GameModeInGame.cpp:852-868 | the piece holds fresh blocks of the next types in the spawn rows and the column is set |
| GameModes.GameMode.SpawnAllowed | Source/uColumnsTutorial/GMInGameTraditional.cpp:75-90 | the four counts are checked against the minimum run and the answer is `Allowed` |
| GameModes.GameMode.PickAllowed | Source/uColumnsTutorial/GMInGameTraditional.cpp:27-31 | the retry loop ends with an allowed type that the picker drew |
| GameModes.GameMode.FillRow | Source/uColumnsTutorial/GMInGameTraditional.cpp:25-34 | one row is filled with allowed blocks, keeping every placement allowed |
| GameModes.GameMode.CustomGameInit | Source/uColumnsTutorial/GMInGameTraditional.cpp:21-42 | exactly the rows below the initial floor are filled, no axis match exists, every floor equals the initial floor, and speed progress is 0 |
| GameModes.GameMode.PickNextPiece | Source/uColumnsTutorial/GameModeInGame.cpp:794-798 | the next-block array holds n consecutive draws |
| GameModes.GameMode.StateGameInit | Source/uColumnsTutorial/GameModeInGame.cpp:787-817 | the piece has piece-size empty slots, next blocks are drawn, scores reset, the board is filled without matches, the countdown starts, and the state is StartCountdown |
| GameModes.GameMode.PrepareRound | Source/uColumnsTutorial/GameModeInGame.cpp:790-805 | piece slots initialised, next blocks drawn, player scores reset |
| GameModes.GameMode.Tick | Source/uColumnsTutorial/GameModeInGame.cpp:162-180 | the invariant is kept, the state moves to a successor, and the frame has exactly the effect of the old state's function (`StateFunctionRan` on the record of the frame's start: grid, floors, score, next blocks and timers per state); the input cooldowns are untouched before play starts and otherwise count down by dt (Spawning resets them) |
| GameModes.GameMode.CountDownDelays | Source/uColumnsTutorial/GameModeInGame.cpp:169-176 | each cooldown above 0 drops by dt |
| GameModes.GameMode.RunState | Source/uColumnsTutorial/GameModeInGame.cpp:178 | the current state function runs: a successor state, the invariant kept, and `StateFunctionRan` of the old state |
| GameModes.GameMode.RunStartState | Source/uColumnsTutorial/GameModeInGame.cpp:787-835 | game init builds the board and starts the countdown (`GameInitRan`); the countdown drops by dt to no less than 0 and spawning starts exactly at 0 (`StartCountdownRan`) |
| GameModes.GameMode.RunGameInitState | Source/uColumnsTutorial/GameModeInGame.cpp:787-817 | `GameInitRan`: StartCountdown, countdown at the initial value, speed 0, next blocks the following draws, the rows below the initial floor filled without a run, floors at the initial floor, score 0 |
| GameModes.GameMode.RunPieceState | Source/uColumnsTutorial/GameModeInGame.cpp:837-939 | spawning as in `StateSpawning` (`SpawningRan`), play as in `RunPlaytimeState` |
| GameModes.GameMode.RunPlaytimeState | Source/uColumnsTutorial/GameModeInGame.cpp:891-939 | `PlaytimeRan`: the fall timer advances by dt times the multiplier; CheckMatch exactly when the piece landed, with the piece's old types landed on the old floor and the speed stepped, otherwise Playtime with grid, floors and landed array unchanged |
| GameModes.GameMode.RunClearState | Source/uColumnsTutorial/GameModeInGame.cpp:941-1145 | the match check (matched = the matches through the landed cells, removal iff any, score += `ScoreDelta`), the blink and removal (the matched cells emptied once the blink ends) and the game-over row clearing (one row per delay, EndGame with an empty grid), each as `StateFunctionRan` states them |
| GameModes.GameMode.RunGravityState | Source/uColumnsTutorial/GameModeInGame.cpp:996-1110 | the gravity scan (records and floors per column, repositioning iff any block moves) and the repositioning tick (arrivals placed and landed, CheckMatch once all finish), each as `StateFunctionRan` states them |
| GameModes.GameMode.OnAccelerate | Source/uColumnsTutorial/GameModeInGame.cpp:775-778 | the fall multiplier becomes the fast multiplier |
| GameModes.GameMode.OnDecelerate | Source/uColumnsTutorial/GameModeInGame.cpp:780-783 | the fall multiplier returns to 1 |

## Left out

- Rendering, sound, particles, delegate broadcasts (`mOnGameOver`, `mOnNextPieceChanged`, …), blueprint events (`OnBlockMatched`, `OnBeingDestroyed`) and input binding in `BeginPlay` have no observable effect on the game logic and are not modelled.
- The blink intensity (`cos` of alpha times the blinking speed) is floating-point trigonometry; only the alpha >= 1 threshold of `StateRemovingBlock` is modelled.
- `PickRandomBlock` and `CalculateWeightSum` draw a weighted float random number. They are modelled as an oracle `draw` that every call advances. It is assumed to yield type ids of the theme and to be fair: every type keeps coming up. With at least five types and runs of at least two, this makes the Traditional retry loop terminate.
- Integers are unbounded and floats are reals. int32 overflow, float rounding and NaN are not modelled.
- A zero-limit timer is modelled as giving positive infinity, and `Tick` requires a positive dt.
- The world geometry of the play field is a parameter (`fieldLocation`, `scaledCellSize`), and the Traditional speed curve asset is an optional function parameter. PlayField, ColCamera and BackgroundActor are not part of this model.
- World positions of settled and repositioning blocks are not modelled: a grid cell holds only the type id of its block. The repositioning animation is reduced to its timer.
- Actor spawning checks for a missing world or play field, and actor destruction, are not modelled. `RestartGame` empties the cells without destroying the actors.
- `AddBlockToGridData` checks only the upper bound of its index. The landing path therefore requires the column's floor to be inside the grid with room for the piece, instead of modelling an out-of-bounds write.
- StatePlaytime: requires that the piece fits above the column's floor when it lands, which the game's geometry guarantees but the code does not check.
- Tick: carries the same fit precondition while in Playtime.
- `SpawnPiece` takes the sequence of spawned blocks rather than a lambda. The landing loop reads the piece's type ids before writing them, instead of visiting `ForEachBlock` with a lambda.
- The eight directional counters are one loop, `GetMatch`, parameterised by the direction, and the four axis collectors are one loop, `CountMatches`, parameterised by the axis.
- Loops over the grid work on a local copy that is stored back once at the end. This is indistinguishable here because no other code runs in between.
- `mNextBlock.SetNum` is modelled as a fresh array of draws.
- The mode's settings (`Settings()`) are assumed:
  - a non-empty grid;
  - pieces of two or more blocks that fit in the grid;
  - runs of two or more;
  - at least five block types;
  - a positive fast-fall multiplier, since a zero one would stall an accelerated piece;
  - an initial floor below the top row;
  - a positive cell size.
- `StateEndGame` returns itself and is modelled only as the terminal state of `Successor`.
- The rest of ColBPLibrary is not part of this model: themes, windows and resolution, screen projection, brushes, audio volume and playback time, input emulation and `IsMobile`.
- Library.UpdatedHighScores: mode and score names are compared exactly, case included. The original's string-keyed maps compare and hash their keys ignoring case, so two names that differ only in case are one entry there and two here. Case folding is not modelled.
- Library.HighScoreTable.UpdateHighScore: the same exact-case key comparison as `UpdatedHighScores`.
- Helpers.Timing: `FTiming`, `FGridCellData` and `FRepositioningBlock` are modelled as values rather than objects updated in place. They are stored by value inside arrays in the original, and the owner stores back the updated value.

## Findings

| source | as written | input that shows it | evidently intended | confidence | as-written member | corrected member |
|---|---|---|---|---|---|---|
| Source/uColumnsTutorial/GameModeInGame.cpp:714-721 | `OnSideMove` looks up `GetCellLocation(dest_col, mColumnFloor[dest_col])` without checking the floor. When the destination column is full, its floor equals the row count, `GetCellIndex` returns -1, and `mGridData[-1]` is read | 9 x 16 grid, every floor 13 (game not lost for pieces of 3), a piece lands in column 0 (floor becomes 16), and the next piece, in column 4, is steered left until column 1 moves to column 0 | a full destination column has no floor cell, so the move is refused like a collision | not executed | GameRules.SideMoveProbe, GameRules.SideMoveProbeOffGrid | GameRules.SideMoveTarget, GameRules.SideMoveTargetAgrees (used by GameModes.GameMode.OnSideMove) |

# Falling-block game engine, modelled in Dafny

This project models the engine of a small Tetris-like game (package `tetris`): the piece catalog
and the game state with its gravity tick. The game state keeps four 20 x 10 integer layers:

- landed blocks (0/1);
- landed colours;
- the falling piece's blocks;
- the falling piece's colours.

It also keeps the falling piece and its anchor, the queued next piece, a running/terminated status
and a score.

The model has three modules:

- `Pieces` (`pieces.dfy`): the seven playable pieces and the empty piece.
  - A piece is a value `Piece(kind, rotation)`.
  - `Shapes(kind)` gives its list of 4 x 4 rotation boxes as flat 16-entry 0/1 lists.
  - `ColorOf(kind)` gives its fixed colour, using the integer codes of the game's `Color` enumeration (White = 0 means "empty").
  - `GetRandomPiece` copies a catalog entry and turns it to a rotation. The two random draws are its parameters.
- `Board` (`board.dfy`): the 20 x 10 board as `seq<seq<int>>` layers, with these pieces:
  - the collision test and the resting test, each a scan over the 16 box entries proved equal to a quantified meaning;
  - stamping a piece onto a layer, done by a loop (`StampLayers`) proved equal to `Stamp`;
  - the combined drawn view (`UnionBlocks`, `SumLayers`);
  - the bottom-up sweep that removes full rows (`SweepLayers`). It is proved equal to the specification `Cleared`: the rows that are not full, in order, at the bottom, with empty rows on top.
- `Game` (`game.dfy`): the class `GameState`.
  - Its fields are updated in place by the engine's operations: redraw, freeze, generate, stage with upward kick, unchecked and guarded moves and rotation, hard drop, line clearing, and the gravity tick `Step`.
  - `NewGame` is also in this module.
  - Staging tries the anchor rows 0, -1, -2 and -3, as the source does. Only the first two can ever succeed, because every playable box has an occupied entry in its top two rows (`Board.StageDeadAttempts`).
  - `Valid()` is the invariant kept by every entry point: the user moves and rotation, `DropPiece`, `Step` and `NewGame`. The internal steps (redraw, freeze, stage, the unchecked moves, line clearing) pass through states where it does not hold; after a freeze, for example, the piece overlaps its own landed cells. `Valid()` says:
    - the layers are board-sized, and the landed layer is 0/1 with White wherever it is empty;
    - the falling piece is on the board, overlaps nothing, and is exactly what the falling layers show;
    - a running game has a playable falling piece, and a terminated one has the empty piece.

## Model

| member | source | states |
|---|---|---|
| Pieces.Shapes | tetris/game_piece.py:9-128 | every kind has between one and four rotation boxes, each of 16 entries |
| Pieces.Shape | tetris/game_piece.py:137-139 | the current box is the kind's box at the current rotation, 16 entries long (the rotation must name a box) |
| Pieces.NewPiece | tetris/game_piece.py:131-135 | a new piece starts at rotation 0, which names one of its boxes |
| Pieces.KindBoxes | tetris/game_piece.py:7-128 | every rotation box of every kind is 16 entries, each 0 or 1; every box of a playable kind occupies exactly four cells |
| Pieces.PlayableNearTopLeft | tetris/game_piece.py:16-128 | every rotation box of a playable piece has an occupied entry in its top two rows, one in its left two columns, one below its top row and one right of its left column |
| Pieces.CatalogFourCells | tetris/game_piece.py:16-128 | every rotation of every playable piece occupies exactly four cells |
| Pieces.EmptyPieceHasNoCell | tetris/game_piece.py:9-14 | the empty piece is valid, occupies no cell and is not playable |
| Pieces.RotationCounts | tetris/game_piece.py:9-128 | rotation counts: empty 1, I 2, O 1, L/J/T/S/Z 4 |
| Pieces.CatalogColors | tetris/game_piece.py:142-149 | each kind's fixed colour; the empty piece is White; the seven playable colours are distinct and none is White |
| Pieces.CatalogEntriesAreNew | tetris/game_piece.py:142-151 | the empty piece and every catalog entry are new pieces of their kind, at rotation 0 |
| Pieces.CatalogContents | tetris/game_piece.py:151 | the catalog has exactly the seven playable kinds, each at rotation 0, and not the empty piece |
| Pieces.GetRandomPiece | tetris/game_piece.py:154-157 | the result is a playable copy of the chosen catalog entry at the chosen rotation, and it occupies four cells |
| Pieces.Rotated | tetris/game.py:155 | the next rotation is the current one plus one, wrapping to 0 after the last box; the kind is kept |
| Pieces.RotationWraps | tetris/game.py:155 | rotating once per rotation box returns the piece to its starting rotation |
| Pieces.RotatedTimesIndex | tetris/game.py:155 | after n rotations (n at most the box count) the index has advanced by n, wrapping once |
| Board.ShiftDown | tetris/game.py:205-206 | one shift: row 0 becomes empty, rows 1..row take the row above, lower rows stay |
| Board.DetectOutOfBoundaryOrCollision | tetris/game.py:72-86 | true exactly when some occupied cell of the piece at the anchor is off the board or on a landed block; when false, the piece lies on the board |
| Board.CollisionScan | tetris/game.py:75-86 | the entry-by-entry scan from box index k finds a blocked occupied cell exactly when one exists from k on |
| Board.NoCollisionInBounds | tetris/game.py:80-83 | a piece that does not collide lies on the board |
| Board.IsPieceHittingBottomOrOtherBlocks | tetris/game.py:60-69 | for a piece on the board: true exactly when some occupied cell has the bottom edge or a landed block right below it |
| Board.RestingScan | tetris/game.py:62-69 | the entry-by-entry scan from box index k finds a resting occupied cell exactly when one exists from k on |
| Board.RestingIffCollisionBelow | tetris/game.py:60-86 | on a 0/1 landed layer, a piece on the board rests exactly when it would collide one row lower |
| Board.FallOne | tetris/game.py:159-161 | a playable piece on the board that does not rest can move one row down and still lies on the board without collision |
| Board.EmptyPieceFallsForever | tetris/game.py:159-161 | with the empty piece, the hard-drop guard holds at every row from the anchor down, so the loop never exits |
| Board.EmptyPieceIsInert | tetris/game.py:93-99 | the empty piece covers no cell, never collides and never rests, wherever it is anchored |
| Board.PlayableHasCell | tetris/game_piece.py:16-128 | a playable piece has an occupied box entry |
| Board.AnchorAboveBottom | tetris/game.py:65-66 | a playable piece on the board has its anchor above the bottom edge |
| Board.PlacedAnchorRange | tetris/game.py:70-85 | a playable piece whose cells all lie on the board is anchored at rows -1 to 18 and columns -1 to 8 |
| Board.StageDeadAttempts | tetris/game.py:121-125 | staging attempts 2 and 3 (anchor rows -2 and -3) always collide for a playable piece |
| Board.FirstFreeAttempt | tetris/game.py:121-125 | the first free staging attempt is attempt 0 or 1 |
| Board.EmptyBoardAcceptsStage | tetris/game.py:121-125 | on an empty board, the first staging attempt (row 0, column 3) is free for any piece |
| Board.Stamp | tetris/game.py:95-99 | stamping writes the value at exactly the cells the piece covers and keeps every other cell |
| Board.StampEmptyPiece | tetris/game.py:93-99 | stamping the empty piece leaves a layer unchanged |
| Board.StampLayers | tetris/game.py:95-99 | the nested loop over the box writes 1 into the block layer and the colour into the colour layer at exactly the covered cells |
| Board.OverlayDisjoint | tetris/game.py:52-57 | a piece that does not collide is disjoint from the landed blocks; the union is 1 exactly where either layer is filled, and the summed colours give each cell the colour of its one layer, White where neither is filled |
| Board.FullIffAllOccupied | tetris/game.py:204 | on a 0/1 row of board width, the row sum equals the width exactly when every cell is 1 |
| Board.ZeroRowNotFull | tetris/game.py:204-206 | the empty row shifted in at the top is never full, so the inner loop ends |
| Board.KeptLength | tetris/game.py:203-208 | removed rows plus kept rows account for every row |
| Board.KeptAt | tetris/game.py:205 | every layer keeps the same rows, at the same kept indices |
| Board.KeptIndicesExact | tetris/game.py:203-208 | the kept indices increase strictly (relative order is kept) and are exactly the rows that are not full |
| Board.ClearedRow | tetris/game.py:203-208 | the top rows of a cleared layer, as many as were removed, are empty; each lower row is the original row at the matching kept index |
| Board.NoFullRowAfterClear | tetris/game.py:203-208 | after clearing, no row of the landed layer is full |
| Board.NothingFullKeepsAll | tetris/game.py:203-208 | with no full row, clearing removes nothing and moves nothing |
| Board.ClearIdempotent | tetris/game.py:197-209 | clearing a cleared layer changes nothing |
| Board.ClearedIsGrid | tetris/game.py:205-206 | clearing keeps the board shape and keeps a 0/1 layer 0/1 |
| Board.FreezeKeepsColorsWithBlocks | tetris/game.py:102-108 | freezing keeps the landed layer 0/1 and keeps White wherever the landed layer is empty |
| Board.ClearKeepsColorsWithBlocks | tetris/game.py:205 | colours are compacted in lock-step with their blocks: every empty landed cell stays White |
| Board.SweepLayers | tetris/game.py:198-208 | the bottom-up sweep, which shifts all four layers while the cursor row is full, yields Cleared for each layer and counts exactly the full rows |
| Game.GameState.constructor | tetris/game.py:22-30 | all layers empty, both pieces empty, anchor (0, 0), running, score 0 |
| Game.GameState.Blocks | tetris/game.py:51-53 | the drawn board is 0/1 and filled exactly where a landed or a falling block is |
| Game.GameState.ColorCodes | tetris/game.py:55-57 | where one colour layer is White, the drawn colour is that of the other layer |
| Game.GameState.DrawnLayersAgree | tetris/game.py:51-57 | in a valid state no cell is both landed and falling; the drawn board is filled exactly where either layer is; the drawn colour is that of the one layer that holds the cell |
| Game.GameState.UpdateFallingBlocks | tetris/game.py:89-99 | the falling layers show exactly the falling piece's cells at its anchor, in its colour; the landed layers are not touched |
| Game.GameState.FrozeFallingPiece | tetris/game.py:102-108 | the landed layers become the stamp of the piece (1 and its colour) and nothing else changes; the landed invariant is kept |
| Game.GameState.GenerateNextFallingPiece | tetris/game.py:111-113 | the queued piece becomes the chosen copy |
| Game.GameState.StageNextFallingPiece | tetris/game.py:116-136 | succeeds exactly when one of the anchors (0,3), (-1,3), (-2,3), (-3,3) is free, and then commits the first free one, whose row is 0 or -1; otherwise the falling piece becomes the empty piece, the anchor is kept and the falling layers are cleared |
| Game.GameState.MovePieceDown | tetris/game.py:139-141 | the anchor row rises by one and the falling layers are redrawn |
| Game.GameState.MovePieceLeft | tetris/game.py:144-146 | the anchor column falls by one and the falling layers are redrawn |
| Game.GameState.MovePieceRight | tetris/game.py:149-151 | the anchor column rises by one and the falling layers are redrawn |
| Game.GameState.RotatePiece | tetris/game.py:154-156 | the piece turns to its next rotation and the falling layers are redrawn |
| Game.GameState.FallPiece | tetris/game.py:139-141 | a playable piece that does not rest moves one row down and the state stays valid |
| Game.GameState.DropPiece | tetris/game.py:159-162 | in a running game the piece moves down to the first resting row: every row passed is on the board without resting, and it rests at the last; once the game is over nothing moves; status and score are not touched |
| Game.GameState.DropAfterGameOverNeverStops | tetris/game.py:159-161 | in a finished game the falling piece is the empty piece and the loop's guard holds at every row below the anchor |
| Game.GameState.AnchorNearBoard | tetris/game.py:70-85 | while the game runs, the falling piece's anchor is at rows -1 to 18 and columns -1 to 8 |
| Game.GameState.UserMovePieceDown | tetris/game.py:165-170 | the piece moves one row down exactly when that does not collide; validity is kept; landed layers, score and status are not touched |
| Game.GameState.UserMovePieceLeft | tetris/game.py:173-178 | one column left exactly when that does not collide; validity is kept |
| Game.GameState.UserMovePieceRight | tetris/game.py:181-186 | one column right exactly when that does not collide; validity is kept |
| Game.GameState.UserRotatePiece | tetris/game.py:189-194 | the next rotation is taken exactly when the rotated copy does not collide; validity is kept |
| Game.GameState.RemoveCompleteLines | tetris/game.py:197-210 | each of the four layers becomes its Cleared form under the landed layer's full rows; the score rises by exactly the number of full rows |
| Game.GameState.FreezeAndClear | tetris/game.py:228-229 | the landed layers are the freeze of the piece followed by clearing; the falling layers are shifted with the same full rows; the score rises by the rows removed |
| Game.GameState.StageAndQueue | tetris/game.py:230-233 | the queued piece is staged at the first free staging anchor and a new one is queued; the game keeps running exactly when a staging anchor was free; a terminated game holds the empty piece at the old anchor |
| Game.GameState.LandPiece | tetris/game.py:227-233 | the whole landing branch: freeze, clear and score, stage at the first free anchor, queue, and termination exactly when staging fails, keeping the anchor |
| Game.GameState.Step | tetris/game.py:222-235 | nothing changes once terminated; a piece that does not rest falls one row and nothing else changes; a resting piece lands, the next piece is staged at the first free anchor, and the game ends with the anchor kept exactly when no anchor is free; the score never decreases; validity is kept |
| Game.NewGame | tetris/game.py:213-219 | a fresh running game with score 0, an empty board, the first chosen piece at (0, 3) and the second one queued |

## Left out

- Rendering, the key-event loop, the training script and the neural network are not part of this model. They are I/O, user interface or floating-point learning code. The colour-to-RGB table is left out for the same reason; colours are the `Color` enumeration's integer codes.
- `GameState.numpy` (a reshaping of the layers for the learner) and the `test_game` driver are not modelled.
- Randomness: the kind index and the rotation that `get_random_piece` draws are parameters of `GetRandomPiece`, `GenerateNextFallingPiece`, `StageAndQueue`, `LandPiece`, `Step` and `NewGame`.
- The board size is fixed at 20 x 10. The source's `GameState(rows, columns)` arguments are always these values, and the collision test uses the global constants anyway.
- The layers are `seq<seq<int>>` fields of the class, reassigned whole, not one numpy array updated in place. The cell-by-cell loops run in `StampLayers` and `SweepLayers` on values. No aliasing between layers, or between the state and its callers, is modelled.
- The source's `Piece` objects share their `shapes` list, and the live piece's `rotation` field is mutated. Here a piece is a value and rotation reassigns the `fallingPiece` field. Staging puts one piece object in both the falling and the queued slot (tetris/game.py:133). It stays shared until the next piece is queued right after (tetris/game.py:217 and 231), and nothing rotates it in between, so treating the two slots as separate values changes no outcome.
- Game.GameState.DropPiece: does nothing once the game is over, where the source's loop never ends (see Findings). The final redraw after the loop is not repeated, because the falling layers already show the piece at that point.
- Board.UnionBlocks: the source's bitwise OR of the two block layers is modelled as a 0/1 union. The two agree because both layers hold only 0 and 1 in every valid state.
- Game.GameState.FallPiece is the falling branch of the gravity tick and one move of the hard drop, both of which call `move_piece_down` after the resting test.
- Game.GameState.FreezeAndClear, Game.GameState.StageAndQueue and Game.GameState.LandPiece split the landing branch of the gravity tick into parts; the source has no such separate functions.
- Integer widths: no wrap-around is modelled, because the source's numpy integers never get near their limits. During play the anchor stays within one cell of the board: rows -1 to 18 and columns -1 to 8 (Game.GameState.AnchorNearBoard). After game over the arrow keys move the empty piece's anchor one cell per press without limit, since the empty piece never collides. An int64 would wrap only after 2^63 presses. Colours are 0 to 9. The score is unbounded.

## Findings

| source | as written | input that shows it | evidently intended | confidence | as-written member | corrected member |
|---|---|---|---|---|---|---|
| tetris/game.py:159-162 | `drop_piece` loops until the piece rests, and it does not check the game status | the space key after the game is over (tetris/render.py:116-117 calls `drop_piece` whatever the status): staging failed, so the falling piece is the empty piece, which never rests, and the game hangs | a hard drop on a finished game does nothing | not executed; medium | Game.GameState.DropAfterGameOverNeverStops | Game.GameState.DropPiece |

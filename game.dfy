/** The game engine: one mutable game state, the operations that move its falling
    piece, freeze it, clear full rows and stage the next piece, and the gravity tick. */
module Game {
  import opened Pieces
  import opened Board

  datatype GameStatus = Running | Terminated

  class GameState {
    // The four layers of the board, each GameRows x GameCols.
    var frozen: Grid        // 1 where a landed block sits
    var frozenColor: Grid   // colour of each landed block
    var falling: Grid       // 1 where the falling piece is drawn
    var fallingColor: Grid  // colour of the falling piece's cells
    var fallingPiece: Piece
    var row: int            // anchor of the falling piece (top-left of its box)
    var col: int
    var nextPiece: Piece
    var status: GameStatus
    var score: nat

    /** Landed blocks are board-sized 0/1 layers with White where empty, and both pieces are valid. */
    ghost predicate WellFormed()
      reads this`frozen, this`frozenColor, this`fallingPiece, this`nextPiece
    {
      IsGrid(frozen) && IsGrid(frozenColor) &&
      IsBinary(frozen) && ColorsFollowBlocks(frozen, frozenColor) &&
      ValidPiece(fallingPiece) && ValidPiece(nextPiece)
    }

    /** The falling layers draw exactly the falling piece at its anchor, in its colour. */
    ghost predicate FallingLayersShowPiece()
      reads this`falling, this`fallingColor, this`fallingPiece, this`row, this`col
      requires ValidPiece(fallingPiece)
    {
      falling == Stamp(ZeroGrid(), fallingPiece, row, col, 1) &&
      fallingColor == Stamp(ZeroGrid(), fallingPiece, row, col, ColorOf(fallingPiece.kind))
    }

    /** The falling piece lies on the board and overlaps no landed block. */
    ghost predicate Placed()
      reads this`frozen, this`fallingPiece, this`row, this`col
      requires IsGrid(frozen) && ValidPiece(fallingPiece)
    {
      InBounds(fallingPiece, row, col) && !Collides(frozen, fallingPiece, row, col)
    }

    /** A running game has a playable falling piece; a finished one has the empty piece. */
    ghost predicate StatusAgrees()
      reads this`status, this`fallingPiece, this`nextPiece
    {
      Playable(nextPiece) &&
      (status == Running ==> Playable(fallingPiece)) &&
      (status == Terminated ==> fallingPiece == PieceNone)
    }

    /** The invariant of every state between two operations of a game. */
    ghost predicate Valid()
      reads this
    {
      WellFormed() && Placed() && FallingLayersShowPiece() && StatusAgrees()
    }

    /** The board as drawn: a cell is filled where a landed or a falling block is. */
    function Blocks(): (g: Grid)
      reads this`frozen, this`falling
      requires IsGrid(frozen) && IsGrid(falling)
      ensures IsGrid(g)
      ensures forall x, y :: InGrid(x, y) ==> (g[x][y] == 1 <==> frozen[x][y] == 1 || falling[x][y] == 1)
      ensures forall x, y :: InGrid(x, y) ==> g[x][y] == 0 || g[x][y] == 1
    {
      UnionBlocks(frozen, falling)
    }

    /** The colour of each cell as drawn: the landed colour plus the falling colour. */
    function ColorCodes(): (g: Grid)
      reads this`frozenColor, this`fallingColor
      requires IsGrid(frozenColor) && IsGrid(fallingColor)
      ensures IsGrid(g)
      ensures forall x, y :: InGrid(x, y) && fallingColor[x][y] == White ==> g[x][y] == frozenColor[x][y]
      ensures forall x, y :: InGrid(x, y) && frozenColor[x][y] == White ==> g[x][y] == fallingColor[x][y]
    {
      SumLayers(frozenColor, fallingColor)
    }

    /** In a valid state no cell is both landed and falling, so the drawn board is filled exactly
        where one of the two layers is, in the colour of that layer. */
    lemma DrawnLayersAgree()
      requires Valid()
      ensures forall x, y :: InGrid(x, y) ==> !(frozen[x][y] == 1 && falling[x][y] == 1)
      ensures forall x, y :: InGrid(x, y) ==> (Blocks()[x][y] == 1 <==> frozen[x][y] == 1 || falling[x][y] == 1)
      ensures forall x, y :: InGrid(x, y) ==>
        ColorCodes()[x][y] == if frozen[x][y] == 1 then frozenColor[x][y] else fallingColor[x][y]
    {
      OverlayDisjoint(frozen, frozenColor, fallingPiece, row, col);
    }

    /** A blank board with the empty piece at (0, 0), still running, score 0. */
    constructor ()
      ensures WellFormed()
      ensures frozen == ZeroGrid() && frozenColor == ZeroGrid()
      ensures falling == ZeroGrid() && fallingColor == ZeroGrid()
      ensures fallingPiece == PieceNone && nextPiece == PieceNone && row == 0 && col == 0
      ensures status == Running && score == 0
    {
      frozen, frozenColor, falling, fallingColor := ZeroGrid(), ZeroGrid(), ZeroGrid(), ZeroGrid();
      fallingPiece, nextPiece := PieceNone, PieceNone;
      row, col := 0, 0;
      status, score := Running, 0;
    }

    /** Redraw the falling layers: clear them, then write the piece's occupied cells. */
    method UpdateFallingBlocks()
      requires ValidPiece(fallingPiece) && InBounds(fallingPiece, row, col)
      modifies this`falling, this`fallingColor
      ensures FallingLayersShowPiece()
    {
      // The piece is always drawn: even the empty piece, which has no occupied cell.
      falling, fallingColor := StampLayers(ZeroGrid(), ZeroGrid(), fallingPiece, row, col, ColorOf(fallingPiece.kind));
    }

    /** Land the falling piece: its occupied cells become frozen blocks in its colour. */
    method FrozeFallingPiece()
      requires WellFormed() && InBounds(fallingPiece, row, col)
      modifies this`frozen, this`frozenColor
      ensures WellFormed()
      ensures frozen == Stamp(old(frozen), fallingPiece, row, col, 1)
      ensures frozenColor == Stamp(old(frozenColor), fallingPiece, row, col, ColorOf(fallingPiece.kind))
    {
      FreezeKeepsColorsWithBlocks(frozen, frozenColor, fallingPiece, row, col, ColorOf(fallingPiece.kind));
      frozen, frozenColor := StampLayers(frozen, frozenColor, fallingPiece, row, col, ColorOf(fallingPiece.kind));
    }

    /** Queue a copy of catalog entry `choice` at rotation `rotation` as the next piece. */
    method GenerateNextFallingPiece(choice: nat, rotation: nat)
      requires choice < |Catalog| && rotation < |Shapes(Catalog[choice].kind)|
      modifies this`nextPiece
      ensures nextPiece == GetRandomPiece(choice, rotation)
    {
      nextPiece := GetRandomPiece(choice, rotation);
    }

    /** Put the queued piece on the board at column StageCol, trying rows 0, -1, -2, -3 in turn;
        if none of them is free, the falling piece becomes the empty piece. */
    method StageNextFallingPiece() returns (ok: bool)
      requires WellFormed()
      modifies this`fallingPiece, this`row, this`col, this`falling, this`fallingColor
      ensures WellFormed() && Placed() && FallingLayersShowPiece()
      ensures ok <==> exists a :: 0 <= a < BoxSize && !StageBlocked(frozen, nextPiece, a)
      ensures ok ==>
        fallingPiece == nextPiece && col == StageCol && -1 <= row <= 0 &&
        !Collides(frozen, nextPiece, row, col) &&
        forall a :: 0 <= a < -row ==> StageBlocked(frozen, nextPiece, a)
      ensures !ok ==> fallingPiece == PieceNone && row == old(row) && col == old(col)
      ensures !ok ==> falling == ZeroGrid() && fallingColor == ZeroGrid()
    {
      var board, piece := frozen, nextPiece;
      var attempt := 0;
      var conflict := false;
      var stageRow, stageCol := 0, 0;
      while attempt < BoxSize
        invariant 0 <= attempt <= BoxSize
        invariant conflict <==> attempt > 0
        invariant forall a :: 0 <= a < attempt ==> StageBlocked(board, piece, a)
      {
        stageRow, stageCol := 0 - attempt, StageCol;
        conflict := DetectOutOfBoundaryOrCollision(board, piece, stageRow, stageCol);
        if !conflict {
          break;
        }
        // The attempt just made joins the blocked ones.
        assert StageBlocked(board, piece, attempt);
        assert forall a :: 0 <= a < attempt + 1 ==> StageBlocked(board, piece, a);
        attempt := attempt + 1;
      }

      if conflict {
        fallingPiece := PieceNone;
        EmptyPieceIsInert(frozen, row, col);
        UpdateFallingBlocks();
        StampEmptyPiece(ZeroGrid(), row, col, 1);
        StampEmptyPiece(ZeroGrid(), row, col, ColorOf(PieceNone.kind));
        return false;
      }

      assert !StageBlocked(frozen, nextPiece, attempt);
      FirstFreeAttempt(board, piece, attempt);
      fallingPiece := nextPiece;
      row, col := stageRow, stageCol;
      NoCollisionInBounds(frozen, fallingPiece, row, col);
      UpdateFallingBlocks();
      return true;
    }

    /** Move the falling piece one row down, without any check. */
    method MovePieceDown()
      requires ValidPiece(fallingPiece) && InBounds(fallingPiece, row + 1, col)
      modifies this`row, this`falling, this`fallingColor
      ensures row == old(row) + 1 && FallingLayersShowPiece()
    {
      row := row + 1;
      UpdateFallingBlocks();
    }

    /** Move the falling piece one column left, without any check. */
    method MovePieceLeft()
      requires ValidPiece(fallingPiece) && InBounds(fallingPiece, row, col - 1)
      modifies this`col, this`falling, this`fallingColor
      ensures col == old(col) - 1 && FallingLayersShowPiece()
    {
      col := col - 1;
      UpdateFallingBlocks();
    }

    /** Move the falling piece one column right, without any check. */
    method MovePieceRight()
      requires ValidPiece(fallingPiece) && InBounds(fallingPiece, row, col + 1)
      modifies this`col, this`falling, this`fallingColor
      ensures col == old(col) + 1 && FallingLayersShowPiece()
    {
      col := col + 1;
      UpdateFallingBlocks();
    }

    /** Turn the falling piece to its next rotation, without any check. */
    method RotatePiece()
      requires ValidPiece(fallingPiece) && InBounds(Rotated(fallingPiece), row, col)
      modifies this`fallingPiece, this`falling, this`fallingColor
      ensures fallingPiece == Rotated(old(fallingPiece)) && FallingLayersShowPiece()
    {
      fallingPiece := Rotated(fallingPiece);
      UpdateFallingBlocks();
    }

    /** A playable piece that does not rest moves one row down and the state stays valid. */
    method FallPiece()
      requires Valid() && Playable(fallingPiece)
      requires !IsPieceHittingBottomOrOtherBlocks(frozen, fallingPiece, row, col)
      modifies this`row, this`falling, this`fallingColor
      ensures Valid() && row == old(row) + 1
      ensures row <= GameRows
    {
      FallOne(frozen, fallingPiece, row, col);
      MovePieceDown();
    }

    /** Hard drop: move the piece down until it rests, stopping at the first resting row. Nothing is
        scored; the piece, its column and the landed blocks stay as they are (they are outside the
        modifies frame). Once the game is over the drop does nothing: the source's loop never ends
        there, because the empty piece never rests (DropAfterGameOverNeverStops). */
    method DropPiece()
      requires Valid()
      modifies this`row, this`falling, this`fallingColor
      ensures Valid() && old(row) <= row
      ensures status == Terminated ==> row == old(row)
      ensures status == Running ==> IsPieceHittingBottomOrOtherBlocks(frozen, fallingPiece, row, col)
      ensures status == Running ==> forall r :: old(row) <= r < row ==> FallsThrough(frozen, fallingPiece, r, col)
    {
      if status == Terminated {
        return;
      }
      // The landed blocks, the piece and its column stay fixed while the piece falls.
      ghost var board, piece, c := frozen, fallingPiece, col;
      while !IsPieceHittingBottomOrOtherBlocks(frozen, fallingPiece, row, col)
        invariant Valid() && old(row) <= row
        invariant frozen == board && fallingPiece == piece && col == c
        invariant forall r :: old(row) <= r < row ==> FallsThrough(board, piece, r, c)
        decreases GameRows - row
      {
        FallsThroughExtend(board, piece, c, old(row), row);
        FallPiece();
      }
      // The redraw that follows the loop at the end of drop_piece is not repeated here: the falling
      // layers already show the piece (FallingLayersShowPiece), so it would leave the state as it is.
    }

    /** While the game runs, the falling piece's anchor stays within one cell of the board:
        rows -1 to GameRows - 2, columns -1 to GameCols - 2. */
    lemma AnchorNearBoard()
      requires Valid() && status == Running
      ensures -1 <= row <= GameRows - 2 && -1 <= col <= GameCols - 2
    {
      PlacedAnchorRange(fallingPiece, row, col);
    }

    /** In a finished game the source's hard-drop loop, as written, never exits: the falling piece
        is the empty piece, which passes every row below its anchor without ever resting. */
    lemma DropAfterGameOverNeverStops()
      requires Valid() && status == Terminated
      ensures fallingPiece == PieceNone
      ensures forall r :: row <= r ==> FallsThrough(frozen, fallingPiece, r, col)
    {
      EmptyPieceFallsForever(frozen, row, col);
    }

    /** Soft drop by the player: one row down unless that collides. */
    method UserMovePieceDown()
      requires Valid()
      modifies this`row, this`falling, this`fallingColor
      ensures Valid()
      ensures row == if Collides(frozen, fallingPiece, old(row) + 1, col) then old(row) else old(row) + 1
    {
      var neoRow, neoCol := row + 1, col;
      var conflict := DetectOutOfBoundaryOrCollision(frozen, fallingPiece, neoRow, neoCol);
      if !conflict {
        MovePieceDown();
      }
    }

    /** One column left unless that collides. */
    method UserMovePieceLeft()
      requires Valid()
      modifies this`col, this`falling, this`fallingColor
      ensures Valid()
      ensures col == if Collides(frozen, fallingPiece, row, old(col) - 1) then old(col) else old(col) - 1
    {
      var neoRow, neoCol := row, col - 1;
      var conflict := DetectOutOfBoundaryOrCollision(frozen, fallingPiece, neoRow, neoCol);
      if !conflict {
        MovePieceLeft();
      }
    }

    /** One column right unless that collides. */
    method UserMovePieceRight()
      requires Valid()
      modifies this`col, this`falling, this`fallingColor
      ensures Valid()
      ensures col == if Collides(frozen, fallingPiece, row, old(col) + 1) then old(col) else old(col) + 1
    {
      var neoRow, neoCol := row, col + 1;
      var conflict := DetectOutOfBoundaryOrCollision(frozen, fallingPiece, neoRow, neoCol);
      if !conflict {
        MovePieceRight();
      }
    }

    /** Next rotation, tried on a copy first; kept only if the rotated copy does not collide. */
    method UserRotatePiece()
      requires Valid()
      modifies this`fallingPiece, this`falling, this`fallingColor
      ensures Valid()
      ensures fallingPiece ==
        if Collides(frozen, Rotated(old(fallingPiece)), row, col) then old(fallingPiece)
        else Rotated(old(fallingPiece))
    {
      var neoPiece := Rotated(fallingPiece);
      var conflict := DetectOutOfBoundaryOrCollision(frozen, neoPiece, row, col);
      if !conflict {
        RotatePiece();
      }
    }

    /** Sweep the rows bottom-up; while the row under the cursor is full, shift every layer above
        it down by one (row 0 becomes empty) and test the same row again. Scores one point per row. */
    method RemoveCompleteLines()
      requires WellFormed() && IsGrid(falling) && IsGrid(fallingColor)
      modifies this`frozen, this`frozenColor, this`falling, this`fallingColor, this`score
      ensures WellFormed()
      ensures frozen == Cleared(old(frozen), old(frozen))
      ensures frozenColor == Cleared(old(frozenColor), old(frozen))
      ensures falling == Cleared(old(falling), old(frozen))
      ensures fallingColor == Cleared(old(fallingColor), old(frozen))
      ensures score == old(score) + CountFull(old(frozen), 0)
    {
      ClearedIsGrid(frozen, frozen);
      ClearKeepsColorsWithBlocks(frozen, frozenColor);
      var removedLinesCount;
      frozen, frozenColor, falling, fallingColor, removedLinesCount :=
        SweepLayers(frozen, frozenColor, falling, fallingColor);
      score := score + removedLinesCount;
    }

    /** The first half of a landing: the resting piece is frozen and full rows are cleared. */
    method FreezeAndClear()
      requires WellFormed() && InBounds(fallingPiece, row, col) && IsGrid(falling) && IsGrid(fallingColor)
      modifies this`frozen, this`frozenColor, this`falling, this`fallingColor, this`score
      ensures WellFormed()
      ensures
        var landed := Stamp(old(frozen), fallingPiece, row, col, 1);
        var landedColor := Stamp(old(frozenColor), fallingPiece, row, col, ColorOf(fallingPiece.kind));
        frozen == Cleared(landed, landed) &&
        frozenColor == Cleared(landedColor, landed) &&
        falling == Cleared(old(falling), landed) &&
        fallingColor == Cleared(old(fallingColor), landed) &&
        score == old(score) + CountFull(landed, 0)
    {
      FrozeFallingPiece();
      RemoveCompleteLines();
    }

    /** The second half of a landing: the queued piece is staged (the game ends if it does not fit)
        and a new piece is queued. */
    method StageAndQueue(choice: nat, rotation: nat)
      requires WellFormed() && Playable(nextPiece) && status == Running
      requires choice < |Catalog| && rotation < |Shapes(Catalog[choice].kind)|
      modifies this`fallingPiece, this`row, this`col, this`falling, this`fallingColor, this`nextPiece, this`status
      ensures Valid()
      ensures nextPiece == GetRandomPiece(choice, rotation)
      ensures status == Running <==> exists a :: 0 <= a < BoxSize && !StageBlocked(frozen, old(nextPiece), a)
      ensures status == Running ==> fallingPiece == old(nextPiece) && col == StageCol && -1 <= row <= 0
      ensures status == Running ==> forall a :: 0 <= a < -row ==> StageBlocked(frozen, old(nextPiece), a)
      ensures status == Terminated ==> fallingPiece == PieceNone && row == old(row) && col == old(col)
    {
      var stageOk := StageNextFallingPiece();
      GenerateNextFallingPiece(choice, rotation);
      if !stageOk {
        status := Terminated;
      }
    }

    /** The landing half of a gravity tick: the resting piece is frozen, full rows are cleared,
        the queued piece is staged (the game ends if it does not fit) and a new piece is queued. */
    method LandPiece(choice: nat, rotation: nat)
      requires Valid() && status == Running
      requires choice < |Catalog| && rotation < |Shapes(Catalog[choice].kind)|
      modifies this
      ensures Valid()
      ensures
        var landed := Stamp(old(frozen), old(fallingPiece), old(row), old(col), 1);
        var landedColor := Stamp(old(frozenColor), old(fallingPiece), old(row), old(col), ColorOf(old(fallingPiece).kind));
        frozen == Cleared(landed, landed) &&
        frozenColor == Cleared(landedColor, landed) &&
        score == old(score) + CountFull(landed, 0)
      ensures nextPiece == GetRandomPiece(choice, rotation)
      ensures status == Running <==> exists a :: 0 <= a < BoxSize && !StageBlocked(frozen, old(nextPiece), a)
      ensures status == Running ==> fallingPiece == old(nextPiece) && col == StageCol && -1 <= row <= 0
      ensures status == Running ==> forall a :: 0 <= a < -row ==> StageBlocked(frozen, old(nextPiece), a)
      ensures status == Terminated ==> fallingPiece == PieceNone && row == old(row) && col == old(col)
    {
      FreezeAndClear();
      StageAndQueue(choice, rotation);
    }

    /** One gravity tick. Nothing happens once the game is over. A resting piece lands (LandPiece);
        any other piece falls one row. */
    method Step(choice: nat, rotation: nat)
      requires Valid()
      requires choice < |Catalog| && rotation < |Shapes(Catalog[choice].kind)|
      modifies this
      ensures Valid()
      ensures score >= old(score)
      ensures old(status) == Terminated ==> status == Terminated
      ensures old(status) == Terminated ==>
        frozen == old(frozen) && frozenColor == old(frozenColor) && falling == old(falling) &&
        fallingColor == old(fallingColor) && fallingPiece == old(fallingPiece) && row == old(row) &&
        col == old(col) && nextPiece == old(nextPiece) && score == old(score)
      ensures old(status) == Running && !old(IsPieceHittingBottomOrOtherBlocks(frozen, fallingPiece, row, col)) ==>
        row == old(row) + 1 && col == old(col) && fallingPiece == old(fallingPiece) &&
        frozen == old(frozen) && frozenColor == old(frozenColor) && nextPiece == old(nextPiece) &&
        status == Running && score == old(score)
      ensures old(status) == Running && old(IsPieceHittingBottomOrOtherBlocks(frozen, fallingPiece, row, col)) ==>
        var landed := Stamp(old(frozen), old(fallingPiece), old(row), old(col), 1);
        var landedColor := Stamp(old(frozenColor), old(fallingPiece), old(row), old(col), ColorOf(old(fallingPiece).kind));
        frozen == Cleared(landed, landed) &&
        frozenColor == Cleared(landedColor, landed) &&
        score == old(score) + CountFull(landed, 0) &&
        nextPiece == GetRandomPiece(choice, rotation) &&
        (status == Running <==> exists a :: 0 <= a < BoxSize && !StageBlocked(frozen, old(nextPiece), a)) &&
        (status == Running ==> fallingPiece == old(nextPiece) && col == StageCol && -1 <= row <= 0) &&
        (status == Running ==> forall a :: 0 <= a < -row ==> StageBlocked(frozen, old(nextPiece), a)) &&
        (status == Terminated ==> fallingPiece == PieceNone && row == old(row) && col == old(col))
    {
      if status == Terminated {
        return;
      }
      var hit := IsPieceHittingBottomOrOtherBlocks(frozen, fallingPiece, row, col);
      if hit {
        LandPiece(choice, rotation);
      } else {
        FallPiece();
      }
    }
  }

  /** A new game: a blank board, the first piece staged at (0, StageCol), the second one queued. */
  method NewGame(firstChoice: nat, firstRotation: nat, nextChoice: nat, nextRotation: nat) returns (state: GameState)
    requires firstChoice < |Catalog| && firstRotation < |Shapes(Catalog[firstChoice].kind)|
    requires nextChoice < |Catalog| && nextRotation < |Shapes(Catalog[nextChoice].kind)|
    ensures fresh(state) && state.Valid()
    ensures state.status == Running && state.score == 0
    ensures state.frozen == ZeroGrid() && state.frozenColor == ZeroGrid()
    ensures state.fallingPiece == GetRandomPiece(firstChoice, firstRotation)
    ensures state.row == 0 && state.col == StageCol
    ensures state.nextPiece == GetRandomPiece(nextChoice, nextRotation)
  {
    state := new GameState();
    state.GenerateNextFallingPiece(firstChoice, firstRotation);
    ghost var first := state.nextPiece;
    EmptyBoardAcceptsStage(first);
    assert !StageBlocked(state.frozen, first, 0);
    var staged := state.StageNextFallingPiece();
    assert staged && state.fallingPiece == first && state.row == 0 && state.col == StageCol;
    assert state.Placed();
    state.GenerateNextFallingPiece(nextChoice, nextRotation);
    state.UpdateFallingBlocks();
  }
}

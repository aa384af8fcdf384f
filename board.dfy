/** The 20 x 10 board as grids of ints, the collision and resting tests on it,
    stamping a piece onto a grid, and the row compaction that line clearing performs. */
module Board {
  import opened Pieces

  const GameRows: int := 20
  const GameCols: int := 10

  /** Column of the anchor of a freshly staged piece: (GameCols - BoxSize) / 2, truncated. */
  const StageCol: int := (GameCols - BoxSize) / 2

  /** A layer of the board: GameRows rows of GameCols ints. */
  type Grid = seq<seq<int>>

  predicate InGrid(x: int, y: int)
  {
    0 <= x < GameRows && 0 <= y < GameCols
  }

  predicate IsGrid(g: Grid)
  {
    |g| == GameRows && forall x :: 0 <= x < |g| ==> |g[x]| == GameCols
  }

  ghost predicate IsBinary(g: Grid)
    requires IsGrid(g)
  {
    forall x, y :: InGrid(x, y) ==> g[x][y] == 0 || g[x][y] == 1
  }

  function ZeroRow(): (row: seq<int>)
    ensures |row| == GameCols && forall y :: 0 <= y < GameCols ==> row[y] == 0
  {
    seq(GameCols, _ => 0)
  }

  function ZeroRows(n: nat): (rows: Grid)
    ensures |rows| == n && forall x :: 0 <= x < n ==> rows[x] == ZeroRow()
  {
    seq(n, _ => ZeroRow())
  }

  function ZeroGrid(): (g: Grid)
    ensures IsGrid(g) && IsBinary(g)
    ensures forall x, y :: InGrid(x, y) ==> g[x][y] == 0
  {
    ZeroRows(GameRows)
  }

  function SetCell(g: Grid, x: int, y: int, v: int): (h: Grid)
    requires IsGrid(g) && InGrid(x, y)
    ensures IsGrid(h)
    ensures forall a, b :: InGrid(a, b) ==> h[a][b] == if a == x && b == y then v else g[a][b]
  {
    g[x := g[x][y := v]]
  }

  /** Two grids with the same cells are the same grid. */
  lemma GridExt(a: Grid, b: Grid)
    requires IsGrid(a) && IsGrid(b)
    requires forall x, y :: InGrid(x, y) ==> a[x][y] == b[x][y]
    ensures a == b
  {
    forall x | 0 <= x < GameRows
      ensures a[x] == b[x]
    {
      assert forall y :: 0 <= y < GameCols ==> a[x][y] == b[x][y] by {
        forall y | 0 <= y < GameCols
          ensures a[x][y] == b[x][y]
        {
          assert InGrid(x, y);
        }
      }
    }
  }

  // ---------------------------------------------------------------------------
  // Pieces on the board
  // ---------------------------------------------------------------------------

  predicate InBox(i: int, j: int)
  {
    0 <= i < BoxSize && 0 <= j < BoxSize
  }

  /** Entry (i, j) of the current rotation box of p is occupied. */
  predicate OccAt(p: Piece, i: int, j: int)
    requires ValidPiece(p) && InBox(i, j)
  {
    Shape(p)[i * BoxSize + j] == 1
  }

  /** Board cell (x, y) is covered by piece p anchored (top-left of its box) at (r, c). */
  predicate Covers(p: Piece, r: int, c: int, x: int, y: int)
    requires ValidPiece(p)
  {
    InBox(x - r, y - c) && OccAt(p, x - r, y - c)
  }

  /** Every occupied cell of p anchored at (r, c) lies on the board. */
  ghost predicate InBounds(p: Piece, r: int, c: int)
    requires ValidPiece(p)
  {
    forall i, j :: InBox(i, j) && OccAt(p, i, j) ==> InGrid(r + i, c + j)
  }

  /** Cell (x, y) is off the board or holds a frozen block. */
  predicate Blocked(frozen: Grid, x: int, y: int)
    requires IsGrid(frozen)
  {
    !InGrid(x, y) || frozen[x][y] == 1
  }

  /** What a collision means: some occupied cell of p anchored at (r, c) is blocked. */
  ghost predicate Collides(frozen: Grid, p: Piece, r: int, c: int)
    requires IsGrid(frozen) && ValidPiece(p)
  {
    exists i, j :: InBox(i, j) && OccAt(p, i, j) && Blocked(frozen, r + i, c + j)
  }

  /** Some occupied entry of p at box index k or later sits on a blocked cell. */
  ghost predicate CollidesFrom(frozen: Grid, p: Piece, r: int, c: int, k: int)
    requires IsGrid(frozen) && ValidPiece(p)
  {
    exists i, j :: InBox(i, j) && k <= i * BoxSize + j && OccAt(p, i, j) && Blocked(frozen, r + i, c + j)
  }

  /** Box index k names row k / BoxSize, column k % BoxSize of the box, and no other entry. */
  lemma BoxEntry(k: int)
    requires 0 <= k < BoxCells
    ensures InBox(k / BoxSize, k % BoxSize) && (k / BoxSize) * BoxSize + k % BoxSize == k
    ensures forall i, j :: InBox(i, j) && i * BoxSize + j == k ==> i == k / BoxSize && j == k % BoxSize
  {
  }

  /** Peeling box index k off the collision scan. */
  lemma CollidesFromStep(frozen: Grid, p: Piece, r: int, c: int, k: int)
    requires IsGrid(frozen) && ValidPiece(p) && 0 <= k < BoxCells
    ensures InBox(k / BoxSize, k % BoxSize)
    ensures CollidesFrom(frozen, p, r, c, k) <==>
      (OccAt(p, k / BoxSize, k % BoxSize) && Blocked(frozen, r + k / BoxSize, c + k % BoxSize)) ||
      CollidesFrom(frozen, p, r, c, k + 1)
  {
    BoxEntry(k);
    if CollidesFrom(frozen, p, r, c, k) {
      var i, j :| InBox(i, j) && k <= i * BoxSize + j && OccAt(p, i, j) && Blocked(frozen, r + i, c + j);
      if i * BoxSize + j != k {
        assert CollidesFrom(frozen, p, r, c, k + 1);
      }
    }
    if OccAt(p, k / BoxSize, k % BoxSize) && Blocked(frozen, r + k / BoxSize, c + k % BoxSize) {
      assert CollidesFrom(frozen, p, r, c, k);
    }
  }

  /** The nested (i, j) scan of the collision test, from box entry k = i * BoxSize + j on. */
  function CollisionScan(frozen: Grid, p: Piece, r: int, c: int, k: int): (hit: bool)
    requires IsGrid(frozen) && ValidPiece(p) && 0 <= k <= BoxCells
    ensures hit <==> CollidesFrom(frozen, p, r, c, k)
    decreases BoxCells - k
  {
    if k == BoxCells then false
    else
      CollidesFromStep(frozen, p, r, c, k);
      var i, j := k / BoxSize, k % BoxSize;
      if OccAt(p, i, j) && (r + i < 0 || r + i >= GameRows || c + j < 0 || c + j >= GameCols || frozen[r + i][c + j] == 1) then
        true
      else
        CollisionScan(frozen, p, r, c, k + 1)
  }

  /** The collision test: true exactly when piece p anchored at (r, c) leaves the board or overlaps a frozen block. */
  function DetectOutOfBoundaryOrCollision(frozen: Grid, p: Piece, r: int, c: int): (hit: bool)
    requires IsGrid(frozen) && ValidPiece(p)
    ensures hit <==> Collides(frozen, p, r, c)
    ensures !hit ==> InBounds(p, r, c)
  {
    CollisionScan(frozen, p, r, c, 0)
  }

  /** A piece that does not collide lies on the board. */
  lemma NoCollisionInBounds(frozen: Grid, p: Piece, r: int, c: int)
    requires IsGrid(frozen) && ValidPiece(p) && !Collides(frozen, p, r, c)
    ensures InBounds(p, r, c)
  {
    forall i, j | InBox(i, j) && OccAt(p, i, j)
      ensures InGrid(r + i, c + j)
    {
      assert !Blocked(frozen, r + i, c + j);
    }
  }

  /** Staging attempt `attempt` puts p at (-attempt, StageCol), and there it collides. */
  ghost predicate StageBlocked(frozen: Grid, p: Piece, attempt: int)
    requires IsGrid(frozen) && ValidPiece(p)
  {
    Collides(frozen, p, -attempt, StageCol)
  }

  /** The cell below board cell (x, y) is off the bottom or not empty. */
  predicate RestsOn(frozen: Grid, x: int, y: int)
    requires IsGrid(frozen) && InGrid(x, y)
  {
    x + 1 >= GameRows || frozen[x + 1][y] != 0
  }

  /** Some occupied entry of p at box index k or later has the bottom edge or a block right below it. */
  ghost predicate RestsFrom(frozen: Grid, p: Piece, r: int, c: int, k: int)
    requires IsGrid(frozen) && ValidPiece(p) && InBounds(p, r, c)
  {
    exists i, j :: InBox(i, j) && k <= i * BoxSize + j && OccAt(p, i, j) && RestsOn(frozen, r + i, c + j)
  }

  /** Peeling box index k off the resting scan. */
  lemma RestsFromStep(frozen: Grid, p: Piece, r: int, c: int, k: int)
    requires IsGrid(frozen) && ValidPiece(p) && InBounds(p, r, c) && 0 <= k < BoxCells
    ensures InBox(k / BoxSize, k % BoxSize)
    ensures OccAt(p, k / BoxSize, k % BoxSize) ==> InGrid(r + k / BoxSize, c + k % BoxSize)
    ensures RestsFrom(frozen, p, r, c, k) <==>
      (OccAt(p, k / BoxSize, k % BoxSize) && RestsOn(frozen, r + k / BoxSize, c + k % BoxSize)) ||
      RestsFrom(frozen, p, r, c, k + 1)
  {
    BoxEntry(k);
    if RestsFrom(frozen, p, r, c, k) {
      var i, j :| InBox(i, j) && k <= i * BoxSize + j && OccAt(p, i, j) && RestsOn(frozen, r + i, c + j);
      if i * BoxSize + j != k {
        assert RestsFrom(frozen, p, r, c, k + 1);
      }
    }
    if OccAt(p, k / BoxSize, k % BoxSize) && RestsOn(frozen, r + k / BoxSize, c + k % BoxSize) {
      assert RestsFrom(frozen, p, r, c, k);
    }
  }

  /** The nested (i, j) scan of the resting test, from box entry k on. */
  function RestingScan(frozen: Grid, p: Piece, r: int, c: int, k: int): (hit: bool)
    requires IsGrid(frozen) && ValidPiece(p) && InBounds(p, r, c) && 0 <= k <= BoxCells
    ensures hit <==> RestsFrom(frozen, p, r, c, k)
    decreases BoxCells - k
  {
    if k == BoxCells then false
    else
      RestsFromStep(frozen, p, r, c, k);
      var i, j := k / BoxSize, k % BoxSize;
      if OccAt(p, i, j) && (r + i + 1 >= GameRows || frozen[r + i + 1][c + j] != 0) then
        true
      else
        RestingScan(frozen, p, r, c, k + 1)
  }

  /** The resting test: some occupied cell of p has the bottom edge or a frozen block right below it. */
  function IsPieceHittingBottomOrOtherBlocks(frozen: Grid, p: Piece, r: int, c: int): (hit: bool)
    requires IsGrid(frozen) && ValidPiece(p) && InBounds(p, r, c)
    ensures hit <==> exists i, j :: InBox(i, j) && OccAt(p, i, j) && RestsOn(frozen, r + i, c + j)
  {
    RestingScan(frozen, p, r, c, 0)
  }

  /** Anchored at (r, c), p lies on the board and does not rest: a falling piece passes this row. */
  ghost predicate FallsThrough(frozen: Grid, p: Piece, r: int, c: int)
    requires IsGrid(frozen) && ValidPiece(p)
  {
    InBounds(p, r, c) && !IsPieceHittingBottomOrOtherBlocks(frozen, p, r, c)
  }

  /** The empty piece passes every row: from any anchor row, the hard-drop loop's guard
      (the piece does not rest) holds at every row it moves to, so the loop never exits. */
  lemma EmptyPieceFallsForever(frozen: Grid, r: int, c: int)
    requires IsGrid(frozen)
    ensures forall x :: r <= x ==> FallsThrough(frozen, PieceNone, x, c)
  {
    forall x | r <= x
      ensures FallsThrough(frozen, PieceNone, x, c)
    {
      EmptyPieceIsInert(frozen, x, c);
    }
  }

  /** A piece that passes every row from r0 up to r1 and also passes row r1 passes every row up to r1 + 1. */
  lemma FallsThroughExtend(frozen: Grid, p: Piece, c: int, r0: int, r1: int)
    requires IsGrid(frozen) && ValidPiece(p)
    requires forall r :: r0 <= r < r1 ==> FallsThrough(frozen, p, r, c)
    requires InBounds(p, r1, c) && !IsPieceHittingBottomOrOtherBlocks(frozen, p, r1, c)
    ensures forall r :: r0 <= r < r1 + 1 ==> FallsThrough(frozen, p, r, c)
  {
  }

  /** On a 0/1 frozen layer, a piece on the board rests exactly when one row lower it would collide. */
  lemma RestingIffCollisionBelow(frozen: Grid, p: Piece, r: int, c: int)
    requires IsGrid(frozen) && IsBinary(frozen) && ValidPiece(p) && InBounds(p, r, c)
    ensures IsPieceHittingBottomOrOtherBlocks(frozen, p, r, c) <==> Collides(frozen, p, r + 1, c)
  {
    if IsPieceHittingBottomOrOtherBlocks(frozen, p, r, c) {
      var i, j :| InBox(i, j) && OccAt(p, i, j) && RestsOn(frozen, r + i, c + j);
      assert Blocked(frozen, r + 1 + i, c + j);
    }
    if Collides(frozen, p, r + 1, c) {
      var i, j :| InBox(i, j) && OccAt(p, i, j) && Blocked(frozen, r + 1 + i, c + j);
      assert InGrid(r + i, c + j);
      assert RestsOn(frozen, r + i, c + j);
    }
  }

  /** A piece on the board that does not rest can fall one row: the anchor is above the
      bottom and one row lower the piece is still on the board and overlaps nothing. */
  lemma FallOne(frozen: Grid, p: Piece, r: int, c: int)
    requires IsGrid(frozen) && IsBinary(frozen) && Playable(p) && InBounds(p, r, c)
    requires !IsPieceHittingBottomOrOtherBlocks(frozen, p, r, c)
    ensures r < GameRows
    ensures InBounds(p, r + 1, c) && !Collides(frozen, p, r + 1, c)
  {
    AnchorAboveBottom(p, r, c);
    RestingIffCollisionBelow(frozen, p, r, c);
    NoCollisionInBounds(frozen, p, r + 1, c);
  }

  /** The empty piece never collides and never rests, wherever it is anchored. */
  lemma EmptyPieceIsInert(frozen: Grid, r: int, c: int)
    requires IsGrid(frozen)
    ensures forall x, y :: !Covers(PieceNone, r, c, x, y)
    ensures InBounds(PieceNone, r, c)
    ensures !Collides(frozen, PieceNone, r, c)
    ensures !IsPieceHittingBottomOrOtherBlocks(frozen, PieceNone, r, c)
  {
    EmptyPieceHasNoCell();
    assert forall i, j :: InBox(i, j) ==> !OccAt(PieceNone, i, j) by {
      forall i, j | InBox(i, j)
        ensures !OccAt(PieceNone, i, j)
      {
        assert Shape(PieceNone)[i * BoxSize + j] == 0;
      }
    }
  }

  /** A playable piece has an occupied cell. */
  lemma PlayableHasCell(p: Piece)
    requires Playable(p)
    ensures exists i, j :: InBox(i, j) && OccAt(p, i, j)
  {
    KindBoxes(p.kind);
    CountedCellExists(Shape(p), 0);
    var m :| 0 <= m < BoxCells && Shape(p)[m] == 1;
    assert OccAt(p, m / BoxSize, m % BoxSize);
  }

  /** A piece whose occupied cells lie on the board is anchored above the bottom row. */
  lemma AnchorAboveBottom(p: Piece, r: int, c: int)
    requires Playable(p) && InBounds(p, r, c)
    ensures r < GameRows
  {
    PlayableHasCell(p);
    var i, j :| InBox(i, j) && OccAt(p, i, j);
    assert InGrid(r + i, c + j);
  }

  /** An occupied entry in row i of p's box puts board row r + i on the board. */
  lemma RowOnBoard(p: Piece, r: int, c: int, i: int)
    requires ValidPiece(p) && InBounds(p, r, c) && 0 <= i < BoxSize && RowHas(Shape(p), i)
    ensures 0 <= r + i < GameRows
  {
    if Shape(p)[i * BoxSize] == 1 {
      assert OccAt(p, i, 0);
    } else if Shape(p)[i * BoxSize + 1] == 1 {
      assert OccAt(p, i, 1);
    } else if Shape(p)[i * BoxSize + 2] == 1 {
      assert OccAt(p, i, 2);
    } else {
      assert OccAt(p, i, 3);
    }
  }

  /** An occupied entry in column j of p's box puts board column c + j on the board. */
  lemma ColOnBoard(p: Piece, r: int, c: int, j: int)
    requires ValidPiece(p) && InBounds(p, r, c) && 0 <= j < BoxSize && ColHas(Shape(p), j)
    ensures 0 <= c + j < GameCols
  {
    if Shape(p)[j] == 1 {
      assert OccAt(p, 0, j);
    } else if Shape(p)[BoxSize + j] == 1 {
      assert OccAt(p, 1, j);
    } else if Shape(p)[2 * BoxSize + j] == 1 {
      assert OccAt(p, 2, j);
    } else {
      assert OccAt(p, 3, j);
    }
  }

  /** A playable piece that lies on the board is anchored within one cell of it:
      rows -1 to GameRows - 2, columns -1 to GameCols - 2. */
  lemma PlacedAnchorRange(p: Piece, r: int, c: int)
    requires Playable(p) && InBounds(p, r, c)
    ensures -1 <= r <= GameRows - 2 && -1 <= c <= GameCols - 2
  {
    PlayableNearTopLeft(p);
    var b := Shape(p);
    if RowHas(b, 0) { RowOnBoard(p, r, c, 0); } else { RowOnBoard(p, r, c, 1); }
    if RowHas(b, 1) { RowOnBoard(p, r, c, 1); }
    else if RowHas(b, 2) { RowOnBoard(p, r, c, 2); }
    else { RowOnBoard(p, r, c, 3); }
    if ColHas(b, 0) { ColOnBoard(p, r, c, 0); } else { ColOnBoard(p, r, c, 1); }
    if ColHas(b, 1) { ColOnBoard(p, r, c, 1); }
    else if ColHas(b, 2) { ColOnBoard(p, r, c, 2); }
    else { ColOnBoard(p, r, c, 3); }
  }

  /** Staging attempts 2 and on (anchor rows -2 and above) never succeed for a playable
      piece: its box has an occupied entry in the top two rows, which would lie above the board. */
  lemma StageDeadAttempts(frozen: Grid, p: Piece, attempt: int)
    requires IsGrid(frozen) && Playable(p) && 2 <= attempt
    ensures StageBlocked(frozen, p, attempt)
  {
    if !Collides(frozen, p, -attempt, StageCol) {
      NoCollisionInBounds(frozen, p, -attempt, StageCol);
      PlacedAnchorRange(p, -attempt, StageCol);
    }
  }

  /** The first staging attempt that succeeds is attempt 0 or 1: the empty piece fits at
      once, and a playable piece cannot fit from attempt 2 on. */
  lemma FirstFreeAttempt(frozen: Grid, p: Piece, attempt: int)
    requires IsGrid(frozen) && ValidPiece(p) && 0 <= attempt && !StageBlocked(frozen, p, attempt)
    requires forall a :: 0 <= a < attempt ==> StageBlocked(frozen, p, a)
    ensures attempt <= 1
  {
    if p.kind == NoKind {
      assert p == PieceNone;
      EmptyPieceIsInert(frozen, 0, StageCol);
      assert !StageBlocked(frozen, p, 0);
    } else if 2 <= attempt {
      StageDeadAttempts(frozen, p, attempt);
    }
  }

  /** Any piece fits at the staging anchor (0, StageCol) of an empty board. */
  lemma EmptyBoardAcceptsStage(p: Piece)
    requires ValidPiece(p)
    ensures !Collides(ZeroGrid(), p, 0, StageCol)
  {
  }

  // ---------------------------------------------------------------------------
  // Stamping a piece onto a grid
  // ---------------------------------------------------------------------------

  /** Covers, restricted to box entries before k. */
  predicate CoversBefore(p: Piece, r: int, c: int, x: int, y: int, k: int)
    requires ValidPiece(p)
  {
    Covers(p, r, c, x, y) && (x - r) * BoxSize + (y - c) < k
  }

  /** Distinct box entries have distinct box indices. */
  lemma BoxIndexInjective(a: int, b: int, i: int, j: int)
    requires InBox(a, b) && InBox(i, j)
    ensures a * BoxSize + b == i * BoxSize + j ==> a == i && b == j
  {
  }

  /** g with value v written at the cells covered by box entries before k of p anchored at (r, c). */
  function StampPrefix(g: Grid, p: Piece, r: int, c: int, v: int, k: int): (s: Grid)
    requires IsGrid(g) && ValidPiece(p)
    ensures IsGrid(s)
    ensures forall x, y :: InGrid(x, y) ==> s[x][y] == if CoversBefore(p, r, c, x, y, k) then v else g[x][y]
  {
    seq(GameRows, x requires 0 <= x < GameRows =>
      seq(GameCols, y requires 0 <= y < GameCols =>
        if CoversBefore(p, r, c, x, y, k) then v else g[x][y]))
  }

  /** g with value v written at every cell covered by p anchored at (r, c). */
  function Stamp(g: Grid, p: Piece, r: int, c: int, v: int): (s: Grid)
    requires IsGrid(g) && ValidPiece(p)
    ensures IsGrid(s)
    ensures forall x, y :: InGrid(x, y) ==> s[x][y] == if Covers(p, r, c, x, y) then v else g[x][y]
  {
    StampPrefix(g, p, r, c, v, BoxCells)
  }

  /** Stamping the empty piece leaves the grid as it is. */
  lemma StampEmptyPiece(g: Grid, r: int, c: int, v: int)
    requires IsGrid(g)
    ensures Stamp(g, PieceNone, r, c, v) == g
  {
    EmptyPieceIsInert(ZeroGrid(), r, c);
    GridExt(Stamp(g, PieceNone, r, c, v), g);
  }

  /** Stamping nothing leaves the grid as it is. */
  lemma StampPrefixNone(g: Grid, p: Piece, r: int, c: int, v: int)
    requires IsGrid(g) && ValidPiece(p)
    ensures StampPrefix(g, p, r, c, v, 0) == g
  {
    GridExt(StampPrefix(g, p, r, c, v, 0), g);
  }

  /** One step of the nested (i, j) loop: box entry i * BoxSize + j is written, if occupied. */
  lemma StampPrefixStep(g: Grid, p: Piece, r: int, c: int, v: int, i: int, j: int)
    requires IsGrid(g) && ValidPiece(p) && InBounds(p, r, c) && InBox(i, j)
    ensures InGrid(r + i, c + j) || !OccAt(p, i, j)
    ensures StampPrefix(g, p, r, c, v, i * BoxSize + j + 1) ==
      if OccAt(p, i, j) then SetCell(StampPrefix(g, p, r, c, v, i * BoxSize + j), r + i, c + j, v)
      else StampPrefix(g, p, r, c, v, i * BoxSize + j)
  {
    var k := i * BoxSize + j;
    var next := if OccAt(p, i, j) then SetCell(StampPrefix(g, p, r, c, v, k), r + i, c + j, v)
      else StampPrefix(g, p, r, c, v, k);
    forall x, y | InGrid(x, y)
      ensures StampPrefix(g, p, r, c, v, k + 1)[x][y] == next[x][y]
    {
      StampPrefixCell(g, p, r, c, v, i, j, x, y);
    }
    GridExt(StampPrefix(g, p, r, c, v, k + 1), next);
  }

  /** Box entry i * BoxSize + j decides board cell (x, y) exactly when it covers it. */
  lemma StampPrefixCell(g: Grid, p: Piece, r: int, c: int, v: int, i: int, j: int, x: int, y: int)
    requires IsGrid(g) && ValidPiece(p) && InBounds(p, r, c) && InBox(i, j) && InGrid(x, y)
    ensures InGrid(r + i, c + j) || !OccAt(p, i, j)
    ensures StampPrefix(g, p, r, c, v, i * BoxSize + j + 1)[x][y] ==
      if OccAt(p, i, j) && x == r + i && y == c + j then v else StampPrefix(g, p, r, c, v, i * BoxSize + j)[x][y]
  {
    var k := i * BoxSize + j;
    if x == r + i && y == c + j {
      assert CoversBefore(p, r, c, x, y, k + 1) == OccAt(p, i, j);
    } else if CoversBefore(p, r, c, x, y, k + 1) {
      BoxIndexInjective(x - r, y - c, i, j);
      assert CoversBefore(p, r, c, x, y, k);
    }
  }

  /** The nested (i, j) loop over the box that writes 1 into a block layer and v into a colour
      layer at every cell the piece covers. */
  method StampLayers(blocks0: Grid, colors0: Grid, p: Piece, r: int, c: int, v: int) returns (blocks: Grid, colors: Grid)
    requires IsGrid(blocks0) && IsGrid(colors0) && ValidPiece(p) && InBounds(p, r, c)
    ensures blocks == Stamp(blocks0, p, r, c, 1)
    ensures colors == Stamp(colors0, p, r, c, v)
  {
    blocks, colors := blocks0, colors0;
    StampPrefixNone(blocks0, p, r, c, 1);
    StampPrefixNone(colors0, p, r, c, v);
    // k: the box index i * BoxSize + j of the entry the loops are at
    ghost var k := 0;
    for i := 0 to BoxSize
      invariant k == i * BoxSize
      invariant blocks == StampPrefix(blocks0, p, r, c, 1, k)
      invariant colors == StampPrefix(colors0, p, r, c, v, k)
    {
      for j := 0 to BoxSize
        invariant k == i * BoxSize + j
        invariant blocks == StampPrefix(blocks0, p, r, c, 1, k)
        invariant colors == StampPrefix(colors0, p, r, c, v, k)
      {
        StampPrefixStep(blocks0, p, r, c, 1, i, j);
        StampPrefixStep(colors0, p, r, c, v, i, j);
        if OccAt(p, i, j) {
          blocks := SetCell(blocks, r + i, c + j, 1);
          colors := SetCell(colors, r + i, c + j, v);
        }
        k := k + 1;
      }
    }
  }

  // ---------------------------------------------------------------------------
  // The combined view of the landed and the falling layers
  // ---------------------------------------------------------------------------

  /** Cell-wise union of two block layers: 1 where either holds a 1, else 0. */
  function UnionBlocks(a: Grid, b: Grid): (u: Grid)
    requires IsGrid(a) && IsGrid(b)
    ensures IsGrid(u)
    ensures forall x, y :: InGrid(x, y) ==> u[x][y] == if a[x][y] == 1 || b[x][y] == 1 then 1 else 0
  {
    seq(GameRows, x requires 0 <= x < GameRows =>
      seq(GameCols, y requires 0 <= y < GameCols => if a[x][y] == 1 || b[x][y] == 1 then 1 else 0))
  }

  /** Cell-wise sum of two colour layers. */
  function SumLayers(a: Grid, b: Grid): (t: Grid)
    requires IsGrid(a) && IsGrid(b)
    ensures IsGrid(t)
    ensures forall x, y :: InGrid(x, y) ==> t[x][y] == a[x][y] + b[x][y]
  {
    seq(GameRows, x requires 0 <= x < GameRows =>
      seq(GameCols, y requires 0 <= y < GameCols => a[x][y] + b[x][y]))
  }

  /** With the piece placed where it does not collide, its drawn cells and the landed blocks are
      disjoint: the union holds a 1 exactly where one of them does, and the summed colours give
      each cell the colour of the one layer that holds it (White where neither does). */
  lemma OverlayDisjoint(frozen: Grid, colors: Grid, p: Piece, r: int, c: int)
    requires IsGrid(frozen) && IsBinary(frozen) && IsGrid(colors) && ColorsFollowBlocks(frozen, colors)
    requires ValidPiece(p) && !Collides(frozen, p, r, c)
    ensures forall x, y :: InGrid(x, y) ==>
      !(frozen[x][y] == 1 && Stamp(ZeroGrid(), p, r, c, 1)[x][y] == 1)
    ensures forall x, y :: InGrid(x, y) ==>
      UnionBlocks(frozen, Stamp(ZeroGrid(), p, r, c, 1))[x][y] == (if frozen[x][y] == 1 || Covers(p, r, c, x, y) then 1 else 0)
    ensures forall x, y :: InGrid(x, y) ==>
      SumLayers(colors, Stamp(ZeroGrid(), p, r, c, ColorOf(p.kind)))[x][y] ==
        if frozen[x][y] == 1 then colors[x][y]
        else if Covers(p, r, c, x, y) then ColorOf(p.kind)
        else White
  {
    forall x, y | InGrid(x, y) && Covers(p, r, c, x, y)
      ensures frozen[x][y] != 1
    {
      assert !Blocked(frozen, r + (x - r), c + (y - c));
    }
  }

  // ---------------------------------------------------------------------------
  // Full rows and compaction
  // ---------------------------------------------------------------------------

  function RowSum(row: seq<int>): int
  {
    if |row| == 0 then 0 else RowSum(row[..|row| - 1]) + row[|row| - 1]
  }

  /** The line-clear test: a row whose blocks sum to the board width. */
  predicate IsFull(row: seq<int>)
  {
    RowSum(row) == GameCols
  }

  /** On a 0/1 row of board width, "sums to the width" means "every cell is occupied". */
  lemma FullIffAllOccupied(row: seq<int>)
    requires |row| == GameCols
    requires forall y :: 0 <= y < |row| ==> row[y] == 0 || row[y] == 1
    ensures IsFull(row) <==> forall y :: 0 <= y < |row| ==> row[y] == 1
  {
    FullSumMeansOnes(row);
    SumOfOnes(row);
  }

  lemma {:induction false} SumAtMostLength(row: seq<int>)
    requires forall y :: 0 <= y < |row| ==> row[y] == 0 || row[y] == 1
    ensures 0 <= RowSum(row) <= |row|
  {
    if |row| > 0 {
      SumAtMostLength(row[..|row| - 1]);
    }
  }

  lemma {:induction false} FullSumMeansOnes(row: seq<int>)
    requires forall y :: 0 <= y < |row| ==> row[y] == 0 || row[y] == 1
    ensures RowSum(row) == |row| ==> forall y :: 0 <= y < |row| ==> row[y] == 1
  {
    if |row| > 0 {
      var prefix := row[..|row| - 1];
      SumAtMostLength(prefix);
      FullSumMeansOnes(prefix);
      if RowSum(row) == |row| {
        assert RowSum(prefix) == |prefix| && row[|row| - 1] == 1;
        forall y | 0 <= y < |row|
          ensures row[y] == 1
        {
          if y < |row| - 1 {
            assert row[y] == prefix[y];
          }
        }
      }
    }
  }

  lemma {:induction false} SumOfOnes(row: seq<int>)
    ensures (forall y :: 0 <= y < |row| ==> row[y] == 1) ==> RowSum(row) == |row|
  {
    if |row| > 0 {
      SumOfOnes(row[..|row| - 1]);
    }
  }

  lemma {:induction false} SumOfZeros(row: seq<int>)
    requires forall y :: 0 <= y < |row| ==> row[y] == 0
    ensures RowSum(row) == 0
  {
    if |row| > 0 {
      SumOfZeros(row[..|row| - 1]);
    }
  }

  /** An empty row is never full. */
  lemma ZeroRowNotFull()
    ensures !IsFull(ZeroRow())
  {
    SumOfZeros(ZeroRow());
  }

  /** The row shift of one removal: row 0 becomes empty, rows 1..row take the rows above them, lower rows stay. */
  function ShiftDown(g: Grid, row: int): (h: Grid)
    requires 0 <= row < |g|
    ensures |h| == |g|
    ensures h[0] == ZeroRow()
    ensures forall x :: 1 <= x <= row ==> h[x] == g[x - 1]
    ensures forall x :: row < x < |g| ==> h[x] == g[x]
  {
    [ZeroRow()] + g[..row] + g[row + 1..]
  }

  /** Rows of L, from index `from` on, whose mask row in M is not full, in order. */
  function KeptFrom(L: Grid, M: Grid, from: nat): Grid
    requires |L| == |M| && from <= |M|
    decreases |M| - from
  {
    if from == |M| then []
    else (if IsFull(M[from]) then [] else [L[from]]) + KeptFrom(L, M, from + 1)
  }

  /** Number of full rows of M from index `from` on. */
  function CountFull(M: Grid, from: nat): (c: nat)
    requires from <= |M|
    ensures c <= |M| - from
    decreases |M| - from
  {
    if from == |M| then 0
    else (if IsFull(M[from]) then 1 else 0) + CountFull(M, from + 1)
  }

  /** Indices of the rows of M, from `from` on, that are not full, in increasing order. */
  function KeptIndices(M: Grid, from: nat): seq<int>
    requires from <= |M|
    decreases |M| - from
  {
    if from == |M| then []
    else (if IsFull(M[from]) then [] else [from]) + KeptIndices(M, from + 1)
  }

  /** Layer L after clearing the rows that are full in mask M: the remaining rows, in order,
      at the bottom, and as many empty rows on top as rows were removed. */
  function Cleared(L: Grid, M: Grid): Grid
    requires |L| == |M|
  {
    ZeroRows(CountFull(M, 0)) + KeptFrom(L, M, 0)
  }

  /** Removed plus kept rows account for every row. */
  lemma {:induction false} KeptLength(L: Grid, M: Grid, from: nat)
    requires |L| == |M| && from <= |M|
    ensures |KeptFrom(L, M, from)| + CountFull(M, from) == |M| - from
    ensures |KeptIndices(M, from)| == |KeptFrom(L, M, from)|
    decreases |M| - from
  {
    if from < |M| {
      KeptLength(L, M, from + 1);
    }
  }

  /** The kept rows are exactly the rows at the kept indices: every layer is compacted by the same index map. */
  lemma {:induction false} KeptAt(L: Grid, M: Grid, from: nat)
    requires |L| == |M| && from <= |M|
    ensures |KeptFrom(L, M, from)| == |KeptIndices(M, from)|
    ensures forall x :: 0 <= x < |KeptIndices(M, from)| ==>
      from <= KeptIndices(M, from)[x] < |M| && KeptFrom(L, M, from)[x] == L[KeptIndices(M, from)[x]]
    decreases |M| - from
  {
    KeptLength(L, M, from);
    if from < |M| {
      KeptAt(L, M, from + 1);
    }
  }

  /** The kept indices increase strictly and are exactly the indices of the rows that are not full. */
  lemma {:induction false} KeptIndicesExact(M: Grid, from: nat)
    requires from <= |M|
    ensures forall a, b :: 0 <= a < b < |KeptIndices(M, from)| ==> KeptIndices(M, from)[a] < KeptIndices(M, from)[b]
    ensures forall y :: y in KeptIndices(M, from) <==> from <= y < |M| && !IsFull(M[y])
    decreases |M| - from
  {
    if from < |M| {
      KeptIndicesExact(M, from + 1);
      var rest := KeptIndices(M, from + 1);
      assert forall b :: 0 <= b < |rest| ==> from < rest[b] by {
        forall b | 0 <= b < |rest|
          ensures from < rest[b]
        {
          assert rest[b] in rest;
        }
      }
    }
  }

  /** No kept mask row is full. */
  lemma {:induction false} KeptNotFull(M: Grid, from: nat)
    requires from <= |M|
    ensures forall x :: 0 <= x < |KeptFrom(M, M, from)| ==> !IsFull(KeptFrom(M, M, from)[x])
    decreases |M| - from
  {
    if from < |M| {
      KeptNotFull(M, from + 1);
    }
  }

  /** After clearing, no row of the cleared mask is full. */
  lemma NoFullRowAfterClear(M: Grid)
    ensures forall x :: 0 <= x < |Cleared(M, M)| ==> !IsFull(Cleared(M, M)[x])
  {
    KeptNotFull(M, 0);
    ZeroRowNotFull();
    var n := CountFull(M, 0);
    forall x | 0 <= x < |Cleared(M, M)|
      ensures !IsFull(Cleared(M, M)[x])
    {
      if x >= n {
        assert Cleared(M, M)[x] == KeptFrom(M, M, 0)[x - n];
      }
    }
  }

  /** With no full row, nothing is removed and nothing moves. */
  lemma {:induction false} NothingFullKeepsAll(L: Grid, M: Grid, from: nat)
    requires |L| == |M| && from <= |M|
    requires forall x :: from <= x < |M| ==> !IsFull(M[x])
    ensures KeptFrom(L, M, from) == L[from..] && CountFull(M, from) == 0
    decreases |M| - from
  {
    if from < |M| {
      NothingFullKeepsAll(L, M, from + 1);
    }
  }

  /** Clearing twice is clearing once. */
  lemma ClearIdempotent(M: Grid)
    ensures Cleared(Cleared(M, M), Cleared(M, M)) == Cleared(M, M)
  {
    var C := Cleared(M, M);
    NoFullRowAfterClear(M);
    NothingFullKeepsAll(C, C, 0);
  }

  /** Clearing keeps the shape of a layer, and a 0/1 layer stays 0/1. */
  lemma ClearedIsGrid(L: Grid, M: Grid)
    requires IsGrid(L) && |M| == |L|
    ensures |Cleared(L, M)| == GameRows
    ensures IsGrid(Cleared(L, M))
    ensures IsBinary(L) ==> IsBinary(Cleared(L, M))
  {
    KeptLength(L, M, 0);
    KeptAt(L, M, 0);
    var n := CountFull(M, 0);
    var C := Cleared(L, M);
    forall x | 0 <= x < GameRows
      ensures |C[x]| == GameCols
      ensures IsBinary(L) ==> forall y :: 0 <= y < GameCols ==> C[x][y] == 0 || C[x][y] == 1
    {
      if x >= n {
        assert C[x] == L[KeptIndices(M, 0)[x - n]];
        var src := KeptIndices(M, 0)[x - n];
        if IsBinary(L) {
          forall y | 0 <= y < GameCols
            ensures C[x][y] == 0 || C[x][y] == 1
          {
            assert InGrid(src, y);
          }
        }
      }
    }
  }

  /** Row x of a cleared layer: empty above the removed count, otherwise the row at the matching kept index. */
  lemma ClearedRow(L: Grid, M: Grid, x: int)
    requires |L| == |M| && 0 <= x < |M|
    ensures |Cleared(L, M)| == |M|
    ensures x < CountFull(M, 0) ==> Cleared(L, M)[x] == ZeroRow()
    ensures x >= CountFull(M, 0) ==>
      0 <= x - CountFull(M, 0) < |KeptIndices(M, 0)| &&
      0 <= KeptIndices(M, 0)[x - CountFull(M, 0)] < |M| &&
      Cleared(L, M)[x] == L[KeptIndices(M, 0)[x - CountFull(M, 0)]]
  {
    KeptLength(L, M, 0);
    KeptAt(L, M, 0);
  }

  /** Where a frozen cell is empty its colour is White. */
  ghost predicate ColorsFollowBlocks(frozen: Grid, colors: Grid)
    requires IsGrid(frozen) && IsGrid(colors)
  {
    forall x, y :: InGrid(x, y) && frozen[x][y] == 0 ==> colors[x][y] == White
  }

  /** Freezing a piece writes 1 into the blocks and its colour into the colours at the same cells,
      so the blocks stay 0/1 and every empty cell keeps colour White. */
  lemma FreezeKeepsColorsWithBlocks(frozen: Grid, colors: Grid, p: Piece, r: int, c: int, v: int)
    requires IsGrid(frozen) && IsBinary(frozen) && IsGrid(colors) && ColorsFollowBlocks(frozen, colors)
    requires ValidPiece(p)
    ensures IsBinary(Stamp(frozen, p, r, c, 1))
    ensures ColorsFollowBlocks(Stamp(frozen, p, r, c, 1), Stamp(colors, p, r, c, v))
  {
  }

  /** Colours are compacted in lock-step with the blocks they belong to. */
  lemma ClearKeepsColorsWithBlocks(frozen: Grid, colors: Grid)
    requires IsGrid(frozen) && IsGrid(colors) && ColorsFollowBlocks(frozen, colors)
    ensures IsGrid(Cleared(frozen, frozen)) && IsGrid(Cleared(colors, frozen))
    ensures ColorsFollowBlocks(Cleared(frozen, frozen), Cleared(colors, frozen))
  {
    ClearedIsGrid(frozen, frozen);
    ClearedIsGrid(colors, frozen);
    forall x, y | InGrid(x, y) && Cleared(frozen, frozen)[x][y] == 0
      ensures Cleared(colors, frozen)[x][y] == White
    {
      ClearedRow(frozen, frozen, x);
      ClearedRow(colors, frozen, x);
      if x >= CountFull(frozen, 0) {
        assert InGrid(KeptIndices(frozen, 0)[x - CountFull(frozen, 0)], y);
      }
    }
  }

  // ---------------------------------------------------------------------------
  // The bottom-up sweep
  // ---------------------------------------------------------------------------

  /** State of a layer during the sweep: n rows removed so far, the original rows above s not
      yet reached, and the rows from s down already compacted. */
  predicate Swept(cur: Grid, orig: Grid, mask: Grid, n: nat, s: nat)
    requires |orig| == |mask| && s <= |mask|
  {
    cur == ZeroRows(n) + orig[..s] + KeptFrom(orig, mask, s)
  }

  /** The row at the sweep cursor is the next original row (s > 0) or an empty row (s == 0). */
  lemma SweptCursor(cur: Grid, orig: Grid, mask: Grid, n: nat, s: nat, row: int)
    requires |orig| == |mask| && s <= |mask| && Swept(cur, orig, mask, n, s)
    requires (s > 0 && row == n + s - 1) || (s == 0 && 0 <= row < n)
    ensures 0 <= row < |cur|
    ensures s > 0 ==> cur[row] == orig[s - 1]
    ensures s == 0 ==> cur[row] == ZeroRow()
  {
  }

  /** Removing the full row at the cursor: one more row removed, one fewer original row to reach. */
  lemma SweepRemove(cur: Grid, orig: Grid, mask: Grid, n: nat, s: nat)
    requires |orig| == |mask| && 0 < s <= |mask| && Swept(cur, orig, mask, n, s)
    requires IsFull(mask[s - 1])
    ensures n + s - 1 < |cur|
    ensures Swept(ShiftDown(cur, n + s - 1), orig, mask, n + 1, s - 1)
  {
    var row := n + s - 1;
    var Z := ZeroRows(n);
    var P := orig[..s - 1];
    var K := KeptFrom(orig, mask, s);
    assert |Z| == n && |P| == s - 1;
    assert orig[..s] == P + [orig[s - 1]];
    assert cur == Z + P + [orig[s - 1]] + K;
    assert KeptFrom(orig, mask, s - 1) == K;
    assert cur[..row] == Z + P;
    assert cur[row + 1..] == K;
    assert [ZeroRow()] + Z == ZeroRows(n + 1);
  }

  /** Passing over a row at the cursor that is not full. */
  lemma SweepKeep(cur: Grid, orig: Grid, mask: Grid, n: nat, s: nat)
    requires |orig| == |mask| && 0 < s <= |mask| && Swept(cur, orig, mask, n, s)
    requires !IsFull(mask[s - 1])
    ensures Swept(cur, orig, mask, n, s - 1)
  {
    assert orig[..s] == orig[..s - 1] + [orig[s - 1]];
    assert KeptFrom(orig, mask, s - 1) == [orig[s - 1]] + KeptFrom(orig, mask, s);
  }

  /** The sweep starts with every row still to reach. */
  lemma SweepStart(orig: Grid, mask: Grid)
    requires |orig| == |mask|
    ensures Swept(orig, orig, mask, 0, |mask|) && CountFull(mask, |mask|) == 0
  {
    assert orig[..|mask|] == orig;
    assert KeptFrom(orig, mask, |mask|) == [];
  }

  /** Once every original row is reached, the layer is the cleared layer. */
  lemma SweepDone(cur: Grid, orig: Grid, mask: Grid)
    requires |orig| == |mask| && Swept(cur, orig, mask, CountFull(mask, 0), 0)
    ensures cur == Cleared(orig, mask)
  {
    var Z := ZeroRows(CountFull(mask, 0));
    assert orig[..0] == [];
    assert Z + orig[..0] == Z;
  }

  // ---------------------------------------------------------------------------
  // The sweep as a function of how far the cursor has come
  // ---------------------------------------------------------------------------

  /** Layer L once the sweep has passed original rows s .. |M| - 1 of mask M from the bottom up:
      over every full row, everything above it moves down by one and an empty row enters on top. */
  function Compacted(L: Grid, M: Grid, s: nat): (c: Grid)
    requires |L| == |M| && s <= |M|
    ensures |c| == |L|
    decreases |M| - s
  {
    if s == |M| then L
    else
      var prev := Compacted(L, M, s + 1);
      if IsFull(M[s]) then ShiftDown(prev, s + CountFull(M, s + 1)) else prev
  }

  /** The row-by-row compaction keeps the shape of the sweep state at every step. */
  lemma {:induction false} CompactedSwept(L: Grid, M: Grid, s: nat)
    requires |L| == |M| && s <= |M|
    ensures Swept(Compacted(L, M, s), L, M, CountFull(M, s), s)
    decreases |M| - s
  {
    if s == |M| {
      SweepStart(L, M);
    } else {
      CompactedSwept(L, M, s + 1);
      var prev := Compacted(L, M, s + 1);
      if IsFull(M[s]) {
        SweepRemove(prev, L, M, CountFull(M, s + 1), s + 1);
      } else {
        SweepKeep(prev, L, M, CountFull(M, s + 1), s + 1);
      }
    }
  }

  /** The sweep removes the full original row s - 1 under the cursor at `row`. */
  lemma CompactedRemove(L: Grid, M: Grid, s: nat, row: int)
    requires |L| == |M| && 0 < s <= |M| && row == CountFull(M, s) + s - 1 && IsFull(M[s - 1])
    ensures 0 <= row < |L|
    ensures Compacted(L, M, s - 1) == ShiftDown(Compacted(L, M, s), row)
    ensures CountFull(M, s - 1) == CountFull(M, s) + 1
  {
  }

  /** The sweep passes over the original row s - 1, which is not full. */
  lemma CompactedKeep(L: Grid, M: Grid, s: nat)
    requires |L| == |M| && 0 < s <= |M| && !IsFull(M[s - 1])
    ensures Compacted(L, M, s - 1) == Compacted(L, M, s)
    ensures CountFull(M, s - 1) == CountFull(M, s)
  {
  }

  /** Once the sweep has passed every row, the layer is the cleared layer. */
  lemma CompactedIsCleared(L: Grid, M: Grid)
    requires |L| == |M|
    ensures Compacted(L, M, 0) == Cleared(L, M)
  {
    CompactedSwept(L, M, 0);
    SweepDone(Compacted(L, M, 0), L, M);
  }

  /** The row under the sweep cursor: the next original row to reach, or an empty row once all are reached. */
  lemma CompactedCursor(L: Grid, M: Grid, s: nat, row: int)
    requires |L| == |M| && s <= |M|
    requires (s > 0 && row == CountFull(M, s) + s - 1) || (s == 0 && 0 <= row < CountFull(M, s))
    ensures 0 <= row < |L|
    ensures s > 0 ==> Compacted(L, M, s)[row] == L[s - 1]
    ensures s == 0 ==> Compacted(L, M, s)[row] == ZeroRow()
  {
    CompactedSwept(L, M, s);
    SweptCursor(Compacted(L, M, s), L, M, CountFull(M, s), s, row);
  }

  /** The bottom-up sweep of line clearing over the four layers: while the row under the cursor is
      full in the block layer F0, every layer above it is shifted down by one (row 0 becomes empty)
      and the same row is tested again. Returns the compacted layers and the number of rows removed. */
  method SweepLayers(F0: Grid, C0: Grid, L0: Grid, LC0: Grid)
    returns (blocks: Grid, colors: Grid, fall: Grid, fallColors: Grid, removedLinesCount: nat)
    requires IsGrid(F0) && IsGrid(C0) && IsGrid(L0) && IsGrid(LC0)
    ensures blocks == Cleared(F0, F0) && colors == Cleared(C0, F0)
    ensures fall == Cleared(L0, F0) && fallColors == Cleared(LC0, F0)
    ensures removedLinesCount == CountFull(F0, 0)
  {
    removedLinesCount := 0;
    // `blocks` is the frozen layer that decides which rows are full.
    blocks, colors, fall, fallColors := F0, C0, L0, LC0;
    // s: how many original rows, counted from the top, the cursor has not reached yet.
    ghost var s: nat := GameRows;
    ZeroRowNotFull();

    var r := GameRows - 1;
    while r >= 0
      invariant -1 <= r < GameRows && s <= GameRows
      invariant (s > 0 && r == removedLinesCount + s - 1) || (s == 0 && r < removedLinesCount)
      invariant removedLinesCount == CountFull(F0, s)
      invariant blocks == Compacted(F0, F0, s) && colors == Compacted(C0, F0, s)
      invariant fall == Compacted(L0, F0, s) && fallColors == Compacted(LC0, F0, s)
      decreases r + 1
    {
      CompactedCursor(F0, F0, s, r);
      while RowSum(blocks[r]) == GameCols
        invariant 0 <= r < GameRows && s <= GameRows
        invariant (s > 0 && r == removedLinesCount + s - 1) || (s == 0 && r < removedLinesCount)
        invariant removedLinesCount == CountFull(F0, s)
        invariant blocks == Compacted(F0, F0, s) && colors == Compacted(C0, F0, s)
        invariant fall == Compacted(L0, F0, s) && fallColors == Compacted(LC0, F0, s)
        decreases s
      {
        CompactedCursor(F0, F0, s, r);
        if s == 0 {
          // every original row has been reached: the rows left at the cursor are empty
          assert false;
        }
        CompactedRemove(F0, F0, s, r);
        CompactedRemove(C0, F0, s, r);
        CompactedRemove(L0, F0, s, r);
        CompactedRemove(LC0, F0, s, r);
        // every layer: rows above the cursor move down one, row 0 becomes empty
        blocks := ShiftDown(blocks, r);
        colors := ShiftDown(colors, r);
        fall := ShiftDown(fall, r);
        fallColors := ShiftDown(fallColors, r);
        removedLinesCount := removedLinesCount + 1;
        s := s - 1;
      }
      CompactedCursor(F0, F0, s, r);
      if s > 0 {
        CompactedKeep(F0, F0, s);
        CompactedKeep(C0, F0, s);
        CompactedKeep(L0, F0, s);
        CompactedKeep(LC0, F0, s);
        s := s - 1;
      }
      r := r - 1;
    }

    assert s == 0;
    CompactedIsCleared(F0, F0);
    CompactedIsCleared(C0, F0);
    CompactedIsCleared(L0, F0);
    CompactedIsCleared(LC0, F0);
  }
}

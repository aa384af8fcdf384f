/** The piece catalog of the game: the empty piece and the seven playable pieces, each
    a list of 4x4 rotation boxes (flat 16-entry 0/1 lists), a current rotation and a colour. */
module Pieces {

  /** Side of a rotation box; a box has BoxSize * BoxSize entries. */
  const BoxSize: int := 4
  const BoxCells: int := 16

  // Colour codes. White (0) doubles as "empty cell".
  const White: int := 0
  const Black: int := 1
  const LightBlue: int := 2
  const Blue: int := 3
  const Orange: int := 4
  const Yellow: int := 5
  const Green: int := 6
  const Purple: int := 7
  const Red: int := 8
  const Grey: int := 9

  /** A box is 16 entries, each 0 or 1; entry i * BoxSize + j is row i, column j of the box. */
  predicate IsBox(b: seq<int>)
  {
    |b| == BoxCells && forall k :: 0 <= k < |b| ==> b[k] == 0 || b[k] == 1
  }

  // The rotation boxes of each catalog entry, in rotation order.

  const ShapeNone: seq<seq<int>> :=
    [[0, 0, 0, 0,
      0, 0, 0, 0,
      0, 0, 0, 0,
      0, 0, 0, 0]]

  const ShapeI: seq<seq<int>> :=
    [[0, 1, 0, 0,
      0, 1, 0, 0,
      0, 1, 0, 0,
      0, 1, 0, 0],
     [0, 0, 0, 0,
      1, 1, 1, 1,
      0, 0, 0, 0,
      0, 0, 0, 0]]

  const ShapeO: seq<seq<int>> :=
    [[0, 0, 0, 0,
      0, 1, 1, 0,
      0, 1, 1, 0,
      0, 0, 0, 0]]

  const ShapeL: seq<seq<int>> :=
    [[0, 1, 0, 0,
      0, 1, 0, 0,
      0, 1, 1, 0,
      0, 0, 0, 0],
     [0, 0, 0, 0,
      0, 1, 1, 1,
      0, 1, 0, 0,
      0, 0, 0, 0],
     [0, 1, 1, 0,
      0, 0, 1, 0,
      0, 0, 1, 0,
      0, 0, 0, 0],
     [0, 0, 0, 0,
      0, 0, 1, 0,
      1, 1, 1, 0,
      0, 0, 0, 0]]

  const ShapeJ: seq<seq<int>> :=
    [[0, 0, 1, 0,
      0, 0, 1, 0,
      0, 1, 1, 0,
      0, 0, 0, 0],
     [0, 0, 0, 0,
      0, 1, 0, 0,
      0, 1, 1, 1,
      0, 0, 0, 0],
     [0, 0, 0, 0,
      0, 1, 1, 0,
      0, 1, 0, 0,
      0, 1, 0, 0],
     [0, 0, 0, 0,
      1, 1, 1, 0,
      0, 0, 1, 0,
      0, 0, 0, 0]]

  const ShapeT: seq<seq<int>> :=
    [[0, 0, 0, 0,
      0, 1, 0, 0,
      1, 1, 1, 0,
      0, 0, 0, 0],
     [0, 1, 0, 0,
      0, 1, 1, 0,
      0, 1, 0, 0,
      0, 0, 0, 0],
     [0, 0, 0, 0,
      0, 1, 1, 1,
      0, 0, 1, 0,
      0, 0, 0, 0],
     [0, 0, 0, 0,
      0, 0, 1, 0,
      0, 1, 1, 0,
      0, 0, 1, 0]]

  const ShapeS: seq<seq<int>> :=
    [[0, 0, 0, 0,
      0, 1, 1, 0,
      1, 1, 0, 0,
      0, 0, 0, 0],
     [0, 1, 0, 0,
      0, 1, 1, 0,
      0, 0, 1, 0,
      0, 0, 0, 0],
     [0, 0, 0, 0,
      0, 0, 1, 1,
      0, 1, 1, 0,
      0, 0, 0, 0],
     [0, 0, 0, 0,
      0, 1, 0, 0,
      0, 1, 1, 0,
      0, 0, 1, 0]]

  const ShapeZ: seq<seq<int>> :=
    [[0, 0, 0, 0,
      1, 1, 0, 0,
      0, 1, 1, 0,
      0, 0, 0, 0],
     [0, 0, 1, 0,
      0, 1, 1, 0,
      0, 1, 0, 0,
      0, 0, 0, 0],
     [0, 0, 0, 0,
      0, 1, 1, 0,
      0, 0, 1, 1,
      0, 0, 0, 0],
     [0, 0, 0, 0,
      0, 0, 1, 0,
      0, 1, 1, 0,
      0, 1, 0, 0]]

  /** The catalog entries: the empty piece and the seven playable ones. */
  datatype Kind = NoKind | KindI | KindO | KindL | KindJ | KindT | KindS | KindZ

  /** The shared list of rotation boxes of a kind. */
  function Shapes(k: Kind): (boxes: seq<seq<int>>)
    ensures 0 < |boxes| <= 4 && forall r :: 0 <= r < |boxes| ==> |boxes[r]| == BoxCells
  {
    match k
    case NoKind => ShapeNone
    case KindI => ShapeI
    case KindO => ShapeO
    case KindL => ShapeL
    case KindJ => ShapeJ
    case KindT => ShapeT
    case KindS => ShapeS
    case KindZ => ShapeZ
  }

  /** The fixed colour of a kind. */
  function ColorOf(k: Kind): int
  {
    match k
    case NoKind => White
    case KindI => LightBlue
    case KindO => Yellow
    case KindL => Orange
    case KindJ => Blue
    case KindT => Purple
    case KindS => Green
    case KindZ => Red
  }

  /** A piece: its kind, which fixes its rotation boxes and its colour, and the index of its
      current rotation. Copying a piece copies the index and shares the boxes. */
  datatype Piece = Piece(kind: Kind, rotation: nat)

  /** The rotation index names one of the kind's boxes. */
  predicate ValidPiece(p: Piece)
  {
    p.rotation < |Shapes(p.kind)|
  }

  /** The current rotation box of a piece. */
  function Shape(p: Piece): (box: seq<int>)
    requires ValidPiece(p)
    ensures |box| == BoxCells
  {
    Shapes(p.kind)[p.rotation]
  }

  /** A new piece starts at rotation 0. */
  function NewPiece(k: Kind): (p: Piece)
    ensures ValidPiece(p) && p.kind == k && p.rotation == 0
  {
    Piece(k, 0)
  }

  const PieceNone: Piece := Piece(NoKind, 0)

  /** The playable pieces, in the order a random choice indexes them, each at rotation 0. */
  const Catalog: seq<Piece> :=
    [Piece(KindI, 0), Piece(KindO, 0), Piece(KindL, 0), Piece(KindJ, 0),
     Piece(KindT, 0), Piece(KindS, 0), Piece(KindZ, 0)]

  /** Number of occupied entries of a box from index k on. */
  function CountFrom(b: seq<int>, k: nat): nat
    requires k <= |b|
    decreases |b| - k
  {
    if k == |b| then 0 else (if b[k] == 1 then 1 else 0) + CountFrom(b, k + 1)
  }

  function CellCount(b: seq<int>): nat
  {
    CountFrom(b, 0)
  }

  /** A piece that can be played: a valid piece of one of the seven playable kinds. */
  predicate Playable(p: Piece)
  {
    ValidPiece(p) && p.kind != NoKind
  }

  /** A copy of catalog entry `choice` turned to `rotation`; both random draws are made by the caller. */
  function GetRandomPiece(choice: nat, rotation: nat): (p: Piece)
    requires choice < |Catalog| && rotation < |Shapes(Catalog[choice].kind)|
    ensures Playable(p) && p.kind == Catalog[choice].kind && p.rotation == rotation
    ensures CellCount(Shape(p)) == 4
  {
    CatalogFourCells();
    Catalog[choice].(rotation := rotation)
  }

  /** The next rotation of a piece, wrapping around its number of rotations. */
  function Rotated(p: Piece): (q: Piece)
    requires ValidPiece(p)
    ensures ValidPiece(q) && q.kind == p.kind
    ensures q.rotation == if p.rotation + 1 == |Shapes(p.kind)| then 0 else p.rotation + 1
  {
    p.(rotation := (p.rotation + 1) % |Shapes(p.kind)|)
  }

  /** Rotating n times. */
  function RotatedTimes(p: Piece, n: nat): (q: Piece)
    requires ValidPiece(p)
    ensures ValidPiece(q) && q.kind == p.kind
  {
    if n == 0 then p else Rotated(RotatedTimes(p, n - 1))
  }

  // ---------------------------------------------------------------------------
  // Properties of the catalog
  // ---------------------------------------------------------------------------

  /** Rotation counts: I has 2, O and the empty piece 1, the other five 4. */
  lemma RotationCounts()
    ensures |Shapes(NoKind)| == 1 && |Shapes(KindI)| == 2 && |Shapes(KindO)| == 1
    ensures |Shapes(KindL)| == 4 && |Shapes(KindJ)| == 4 && |Shapes(KindT)| == 4
    ensures |Shapes(KindS)| == 4 && |Shapes(KindZ)| == 4
  {
  }

  /** Every rotation box of a list is 16 entries, each 0 or 1, and occupies four cells. */
  predicate FourCellBoxes(shapes: seq<seq<int>>)
  {
    forall r :: 0 <= r < |shapes| ==> IsBox(shapes[r]) && CellCount(shapes[r]) == 4
  }

  /** Every rotation box of every kind is 16 entries, each 0 or 1; those of the playable
      kinds occupy exactly four cells. */
  lemma KindBoxes(k: Kind)
    ensures forall r :: 0 <= r < |Shapes(k)| ==> IsBox(Shapes(k)[r])
    ensures k != NoKind ==> FourCellBoxes(Shapes(k))
  {
    match k
    case NoKind => assert IsBox(ShapeNone[0]);
    case KindI => BoxesI();
    case KindO => BoxesO();
    case KindL => BoxesL();
    case KindJ => BoxesJ();
    case KindT => BoxesT();
    case KindS => BoxesS();
    case KindZ => BoxesZ();
  }

  /** Every rotation of every playable piece occupies exactly four cells. */
  lemma CatalogFourCells()
    ensures forall p :: Playable(p) ==> CellCount(Shape(p)) == 4
  {
    forall p | Playable(p)
      ensures CellCount(Shape(p)) == 4
    {
      KindBoxes(p.kind);
    }
  }

  // The box lists of the playable kinds, one at a time.

  lemma BoxesI()
    ensures FourCellBoxes(ShapeI)
  {
    FourCellsEach(ShapeI);
  }

  lemma BoxesO()
    ensures FourCellBoxes(ShapeO)
  {
    FourCellsEach(ShapeO);
  }

  lemma BoxesL()
    ensures FourCellBoxes(ShapeL)
  {
    FourCellsEach(ShapeL);
  }

  lemma BoxesJ()
    ensures FourCellBoxes(ShapeJ)
  {
    FourCellsEach(ShapeJ);
  }

  lemma BoxesT()
    ensures FourCellBoxes(ShapeT)
  {
    FourCellsEach(ShapeT);
  }

  lemma BoxesS()
    ensures FourCellBoxes(ShapeS)
  {
    FourCellsEach(ShapeS);
  }

  lemma BoxesZ()
    ensures FourCellBoxes(ShapeZ)
  {
    FourCellsEach(ShapeZ);
  }

  /** Row i of box b has an occupied entry. */
  predicate RowHas(b: seq<int>, i: int)
    requires |b| == BoxCells && 0 <= i < BoxSize
  {
    b[i * BoxSize] == 1 || b[i * BoxSize + 1] == 1 || b[i * BoxSize + 2] == 1 || b[i * BoxSize + 3] == 1
  }

  /** Column j of box b has an occupied entry. */
  predicate ColHas(b: seq<int>, j: int)
    requires |b| == BoxCells && 0 <= j < BoxSize
  {
    b[j] == 1 || b[BoxSize + j] == 1 || b[2 * BoxSize + j] == 1 || b[3 * BoxSize + j] == 1
  }

  /** Box b reaches into its top two rows and its left two columns, and has an occupied
      entry below its top row and one right of its left column. */
  predicate NearTopLeft(b: seq<int>)
    requires |b| == BoxCells
  {
    (RowHas(b, 0) || RowHas(b, 1)) && (RowHas(b, 1) || RowHas(b, 2) || RowHas(b, 3)) &&
    (ColHas(b, 0) || ColHas(b, 1)) && (ColHas(b, 1) || ColHas(b, 2) || ColHas(b, 3))
  }

  /** Every rotation box of a list sits near the top-left corner of the box. */
  predicate NearTopLeftBoxes(shapes: seq<seq<int>>)
  {
    forall r :: 0 <= r < |shapes| ==> |shapes[r]| == BoxCells && NearTopLeft(shapes[r])
  }

  /** Every rotation box of a playable piece sits near the top-left corner of its box. */
  lemma PlayableNearTopLeft(p: Piece)
    requires Playable(p)
    ensures NearTopLeft(Shape(p))
  {
    match p.kind
    case KindI => NearI();
    case KindO => NearO();
    case KindL => NearL();
    case KindJ => NearJ();
    case KindT => NearT();
    case KindS => NearS();
    case KindZ => NearZ();
  }

  // The box lists of the playable kinds near the corner, one at a time.

  lemma NearI()
    ensures NearTopLeftBoxes(ShapeI)
  {
  }

  lemma NearO()
    ensures NearTopLeftBoxes(ShapeO)
  {
  }

  lemma NearL()
    ensures NearTopLeftBoxes(ShapeL)
  {
  }

  lemma NearJ()
    ensures NearTopLeftBoxes(ShapeJ)
  {
  }

  lemma NearT()
    ensures NearTopLeftBoxes(ShapeT)
  {
  }

  lemma NearS()
    ensures NearTopLeftBoxes(ShapeS)
  {
  }

  lemma NearZ()
    ensures NearTopLeftBoxes(ShapeZ)
  {
  }

  /** The empty piece is valid and occupies no cell; it is not playable. */
  lemma EmptyPieceHasNoCell()
    ensures ValidPiece(PieceNone) && CellCount(Shape(PieceNone)) == 0
    ensures !Playable(PieceNone)
  {
    CellCountUnrolled(ShapeNone[0]);
  }

  /** Each rotation of a box list of at most four rotations occupies four cells. */
  lemma FourCellsEach(shapes: seq<seq<int>>)
    requires 0 < |shapes| <= 4
    requires forall r :: 0 <= r < |shapes| ==> |shapes[r]| == BoxCells
    requires forall r :: 0 <= r < |shapes| ==> FourOnes(shapes[r]) && IsBox(shapes[r])
    ensures FourCellBoxes(shapes)
  {
    forall r | 0 <= r < |shapes|
      ensures CellCount(shapes[r]) == 4
    {
      CellCountUnrolled(shapes[r]);
    }
  }

  function Ind(v: int): nat
  {
    if v == 1 then 1 else 0
  }

  /** The 16 entries of a box, written out, count four ones. */
  predicate FourOnes(b: seq<int>)
    requires |b| == BoxCells
  {
    Ind(b[0]) + Ind(b[1]) + Ind(b[2]) + Ind(b[3]) +
    Ind(b[4]) + Ind(b[5]) + Ind(b[6]) + Ind(b[7]) +
    Ind(b[8]) + Ind(b[9]) + Ind(b[10]) + Ind(b[11]) +
    Ind(b[12]) + Ind(b[13]) + Ind(b[14]) + Ind(b[15]) == 4
  }

  /** The count of a 16-entry box written out entry by entry. */
  lemma CellCountUnrolled(b: seq<int>)
    requires |b| == BoxCells
    ensures CellCount(b) == Ind(b[0]) + Ind(b[1]) + Ind(b[2]) + Ind(b[3]) +
      Ind(b[4]) + Ind(b[5]) + Ind(b[6]) + Ind(b[7]) +
      Ind(b[8]) + Ind(b[9]) + Ind(b[10]) + Ind(b[11]) +
      Ind(b[12]) + Ind(b[13]) + Ind(b[14]) + Ind(b[15])
  {
    assert CountFrom(b, 15) == Ind(b[15]) + CountFrom(b, 16);
    assert CountFrom(b, 14) == Ind(b[14]) + CountFrom(b, 15);
    assert CountFrom(b, 13) == Ind(b[13]) + CountFrom(b, 14);
    assert CountFrom(b, 12) == Ind(b[12]) + CountFrom(b, 13);
    assert CountFrom(b, 11) == Ind(b[11]) + CountFrom(b, 12);
    assert CountFrom(b, 10) == Ind(b[10]) + CountFrom(b, 11);
    assert CountFrom(b, 9) == Ind(b[9]) + CountFrom(b, 10);
    assert CountFrom(b, 8) == Ind(b[8]) + CountFrom(b, 9);
    assert CountFrom(b, 7) == Ind(b[7]) + CountFrom(b, 8);
    assert CountFrom(b, 6) == Ind(b[6]) + CountFrom(b, 7);
    assert CountFrom(b, 5) == Ind(b[5]) + CountFrom(b, 6);
    assert CountFrom(b, 4) == Ind(b[4]) + CountFrom(b, 5);
    assert CountFrom(b, 3) == Ind(b[3]) + CountFrom(b, 4);
    assert CountFrom(b, 2) == Ind(b[2]) + CountFrom(b, 3);
    assert CountFrom(b, 1) == Ind(b[1]) + CountFrom(b, 2);
    assert CountFrom(b, 0) == Ind(b[0]) + CountFrom(b, 1);
  }

  /** The colour table: the empty piece is White, the playable ones have distinct non-White colours. */
  lemma CatalogColors()
    ensures ColorOf(NoKind) == White
    ensures ColorOf(KindI) == LightBlue && ColorOf(KindO) == Yellow && ColorOf(KindL) == Orange
    ensures ColorOf(KindJ) == Blue && ColorOf(KindT) == Purple && ColorOf(KindS) == Green && ColorOf(KindZ) == Red
    ensures forall a :: 0 <= a < |Catalog| ==> ColorOf(Catalog[a].kind) != White
    ensures forall a, b :: 0 <= a < b < |Catalog| ==> ColorOf(Catalog[a].kind) != ColorOf(Catalog[b].kind)
  {
  }

  /** The catalog holds the seven playable kinds, once each, each at rotation 0, and not the empty piece. */
  lemma CatalogContents()
    ensures |Catalog| == 7 && PieceNone !in Catalog
    ensures forall a :: 0 <= a < |Catalog| ==> Catalog[a].rotation == 0 && Catalog[a].kind != NoKind
    ensures forall k :: k != NoKind ==> Piece(k, 0) in Catalog
  {
  }

  /** The empty piece and every catalog entry are new pieces of their kind, at rotation 0. */
  lemma CatalogEntriesAreNew()
    ensures PieceNone == NewPiece(NoKind)
    ensures forall a :: 0 <= a < |Catalog| ==> Catalog[a] == NewPiece(Catalog[a].kind)
  {
  }

  /** After n <= |Shapes(p.kind)| rotations the index has advanced by n, wrapping once past the end. */
  lemma {:induction false} RotatedTimesIndex(p: Piece, n: nat)
    requires ValidPiece(p) && n <= |Shapes(p.kind)|
    ensures RotatedTimes(p, n).rotation ==
      if p.rotation + n < |Shapes(p.kind)| then p.rotation + n else p.rotation + n - |Shapes(p.kind)|
  {
    if n > 0 {
      RotatedTimesIndex(p, n - 1);
    }
  }

  /** Rotating a piece once per rotation box brings it back to where it started. */
  lemma RotationWraps(p: Piece)
    requires ValidPiece(p)
    ensures RotatedTimes(p, |Shapes(p.kind)|) == p
  {
    RotatedTimesIndex(p, |Shapes(p.kind)|);
  }

  /** A box with at least one occupied entry from k on has an occupied entry there. */
  lemma {:induction false} CountedCellExists(b: seq<int>, k: nat)
    requires k <= |b| && CountFrom(b, k) > 0
    ensures exists m :: k <= m < |b| && b[m] == 1
    decreases |b| - k
  {
    if b[k] != 1 {
      CountedCellExists(b, k + 1);
    }
  }
}

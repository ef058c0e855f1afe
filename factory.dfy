/** The seven canonical tetrominoes and the choice of the next one
    (TetrominoFactory.cs). */
module Factory {
  import opened Blocks
  import opened Shapes
  import opened Rules
  import opened Pieces

  /** The spawn shape of each kind, as the factory writes it out: I is
      4 x 1, O is 2 x 2, the rest 2 x 3. */
  function ShapeOf(kind: BlockType): (s: Shape)
    requires kind != Empty
    ensures kind == I ==> s.rows == 4 && s.cols == 1
    ensures kind == O ==> s.rows == 2 && s.cols == 2
    ensures kind != I && kind != O ==> s.rows == 2 && s.cols == 3
  {
    match kind
    case T => BoolMatrix(2, 3, [[false, true, false], [true, true, true]])
    case I => BoolMatrix(4, 1, [[true], [true], [true], [true]])
    case O => BoolMatrix(2, 2, [[true, true], [true, true]])
    case L => BoolMatrix(2, 3, [[false, false, true], [true, true, true]])
    case J => BoolMatrix(2, 3, [[true, false, false], [true, true, true]])
    case S => BoolMatrix(2, 3, [[false, true, true], [true, true, false]])
    case Z => BoolMatrix(2, 3, [[true, true, false], [false, true, true]])
  }

  /** Every spawn shape has exactly four squares. */
  lemma FourSquares(kind: BlockType)
    requires kind != Empty
    ensures |Cells(ShapeOf(kind))| == 4
  {
    var m := ShapeOf(kind);
    match kind
    case T => SquaresAre(m, (0, 1), (1, 0), (1, 1), (1, 2));
    case I => SquaresAre(m, (0, 0), (1, 0), (2, 0), (3, 0));
    case O => SquaresAre(m, (0, 0), (0, 1), (1, 0), (1, 1));
    case L => SquaresAre(m, (0, 2), (1, 0), (1, 1), (1, 2));
    case J => SquaresAre(m, (0, 0), (1, 0), (1, 1), (1, 2));
    case S => SquaresAre(m, (0, 1), (0, 2), (1, 0), (1, 1));
    case Z => SquaresAre(m, (0, 0), (0, 1), (1, 1), (1, 2));
  }

  /** A shape whose squares are four distinct listed positions has four
      squares. */
  lemma SquaresAre(m: Shape, a: (int, int), b: (int, int), c: (int, int), d: (int, int))
    requires Cells(m) == {a, b, c, d}
    requires a != b && a != c && a != d && b != c && b != d && c != d
    ensures |Cells(m)| == 4
  {
  }

  /** A new piece lies entirely on the board: at most 4 rows from row 0 and
      at most 3 columns from column 5. */
  lemma SpawnInBounds(kind: BlockType)
    requires kind != Empty
    ensures InBounds(ShapeOf(kind), SpawnX, SpawnY)
  {
  }

  /** The random draw's switch: 0..6 pick T, I, O, L, J, S, Z; any other
      value falls back to T. */
  function KindAt(draw: int): (kind: BlockType)
    ensures kind != Empty
    ensures !(0 <= draw < 7) ==> kind == T
  {
    match draw
    case 0 => T
    case 1 => I
    case 2 => O
    case 3 => L
    case 4 => J
    case 5 => S
    case 6 => Z
    case _ => T
  }

  /** Each of the seven kinds is picked by exactly one draw in [0, 7). */
  lemma KindAtOneToOne(kind: BlockType)
    requires kind != Empty
    ensures exists d :: 0 <= d < 7 && KindAt(d) == kind
    ensures forall d, e :: 0 <= d < 7 && 0 <= e < 7 && KindAt(d) == KindAt(e) ==> d == e
  {
    match kind
    case T => assert KindAt(0) == T;
    case I => assert KindAt(1) == I;
    case O => assert KindAt(2) == O;
    case L => assert KindAt(3) == L;
    case J => assert KindAt(4) == J;
    case S => assert KindAt(5) == S;
    case Z => assert KindAt(6) == Z;
  }

  /** `CreateT`, `CreateI`, ... `CreateZ`: a new piece of the kind with its
      spawn shape, at the spawn position. */
  method Create(kind: BlockType) returns (p: Tetromino)
    requires kind != Empty
    ensures fresh(p)
    ensures p.kind == kind && p.shape == ShapeOf(kind) && p.color == AssignColor(kind)
    ensures p.x == SpawnX && p.y == SpawnY
  {
    p := new Tetromino(ShapeOf(kind), kind);
  }

  /** A new piece of the kind the draw selects; the draw itself (a random
      integer in [0, 7)) is supplied by the caller. */
  method CreateRandomPiece(draw: int) returns (p: Tetromino)
    ensures fresh(p)
    ensures p.kind == KindAt(draw) && p.kind != Empty
    ensures p.shape == ShapeOf(p.kind) && p.color == AssignColor(p.kind)
    ensures p.x == SpawnX && p.y == SpawnY
  {
    p := Create(KindAt(draw));
  }
}

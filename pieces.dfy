/** A tetromino: its kind, shape, colour and position on the board
    (Tetromino.cs). */
module Pieces {
  import opened Blocks
  import opened Shapes

  /** Where every new piece starts: the top-left of its box at column 5, row 0. */
  const SpawnX: int := 5
  const SpawnY: int := 0

  /** The colour of each kind; anything else, `Empty` included, is "White". */
  function AssignColor(kind: BlockType): (color: string)
    ensures color == "White" <==> kind == Empty
  {
    match kind
    case I => "cyan"
    case O => "yellow"
    case T => "purple"
    case S => "green"
    case Z => "red"
    case J => "blue"
    case L => "orange"
    case Empty => "White"
  }

  /** No two kinds share a colour, so a settled cell's colour names the kind
      that left it. */
  lemma ColorsDistinct(a: BlockType, b: BlockType)
    requires AssignColor(a) == AssignColor(b)
    ensures a == b
  {
  }

  /** A falling piece. The board and the movement commands update its shape
      and position in place; kind and colour are fixed when it is made. */
  class Tetromino {
    const kind: BlockType
    const color: string
    var shape: Shape
    var x: int
    var y: int

    constructor (shape: Shape, kind: BlockType)
      ensures this.kind == kind && this.shape == shape
      ensures color == AssignColor(kind)
      ensures x == SpawnX && y == SpawnY
    {
      this.kind := kind;
      color := AssignColor(kind);
      this.shape := shape;
      x := SpawnX;
      y := SpawnY;
    }
  }
}

/** Value types of the playfield: the kind of a tetromino and one grid cell
    (BlockType.cs and Cell.cs). */
module Blocks {

  /** The seven tetromino kinds, plus `Empty` for "no block". */
  datatype BlockType = Empty | I | O | T | S | Z | J | L

  /** One slot of the playfield: whether it is taken and its colour tag.
      Colours are opaque strings; nothing in the engine interprets them. */
  datatype Cell = Cell(filled: bool, color: string)

  /** Number of rows and columns of the playfield (row 0 is the top). */
  const Rows: int := 20
  const Cols: int := 10

  /** The colour of an unoccupied cell. */
  const Background: string := "#d1cbc7"

  /** The empty cell every slot starts as and every cleared slot becomes. */
  const EmptyCell: Cell := Cell(false, Background)
}

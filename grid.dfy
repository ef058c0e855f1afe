/** The 20 x 10 grid of settled cells (Grid.cs). */
module Grids {
  import opened Blocks
  import opened Rules

  class Grid {
    /** Row 0 is the top, row 19 the bottom. The board writes into this
        array directly; the grid itself only reads it. */
    const cells: array2<Cell>

    ghost predicate Valid()
    {
      cells.Length0 == Rows && cells.Length1 == Cols
    }

    /** The grid's content as a playfield value. */
    ghost function Snapshot(): (g: seq<Row>)
      requires Valid()
      reads cells
      ensures IsField(g)
      ensures forall r, c :: OnBoard(r, c) ==> g[r][c] == cells[r, c]
    {
      seq(Rows, r requires 0 <= r < Rows reads cells =>
        seq(Cols, c requires 0 <= c < Cols reads cells => cells[r, c]))
    }

    /** A new grid: every cell empty with the background colour. */
    constructor ()
      ensures Valid() && fresh(cells)
      ensures Snapshot() == EmptyField()
    {
      cells := new Cell[Rows, Cols];
      new;
      InitializeGrid();
    }

    method InitializeGrid()
      requires Valid()
      modifies cells
      ensures Snapshot() == EmptyField()
    {
      var row := 0;
      while row < Rows
        invariant 0 <= row <= Rows
        invariant forall r, c :: 0 <= r < row && 0 <= c < Cols ==> cells[r, c] == EmptyCell
      {
        var col := 0;
        while col < Cols
          invariant 0 <= col <= Cols
          invariant forall r, c :: 0 <= r < row && 0 <= c < Cols ==> cells[r, c] == EmptyCell
          invariant forall c :: 0 <= c < col ==> cells[row, c] == EmptyCell
        {
          cells[row, col] := EmptyCell;
          col := col + 1;
        }
        row := row + 1;
      }
      FieldExt(Snapshot(), EmptyField());
    }

    /** The read-only indexer: the settled cell at (row, col). */
    function Get(row: int, col: int): (cell: Cell)
      requires Valid() && OnBoard(row, col)
      reads cells
      ensures cell == Snapshot()[row][col]
    {
      cells[row, col]
    }
  }
}

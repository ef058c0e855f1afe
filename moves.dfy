/** The player's commands on the falling piece (Movement.cs): each one asks
    the board's fit test first and changes the piece only when it passes. */
module Moves {
  import opened Blocks
  import opened Shapes
  import opened Rules
  import opened Pieces
  import opened Grids
  import opened Boards

  class Movement {
    /** The board whose falling piece the commands act on. */
    const board: Board

    constructor (board: Board)
      ensures this.board == board
    {
      this.board := board;
    }

    /** Turn the piece by a quarter: "clockwise" turns clockwise, any other
        string counter-clockwise. The turned shape is tried at the same
        position on a temporary piece; it replaces the shape only when it
        fits there. */
    method Rotate(direction: string)
      requires board.Valid()
      modifies board.current
      ensures board.Valid() && unchanged(board) && unchanged(board.grid.cells)
      ensures board.current.x == old(board.current.x) && board.current.y == old(board.current.y)
      ensures var turned := Shapes.Rotate(old(board.current.shape), direction);
        if Fits(board.Field(), turned, board.current.x, board.current.y)
        then board.current.shape == turned
        else board.current.shape == old(board.current.shape)
      ensures board.current.shape != old(board.current.shape) ==>
        Legal(board.Field(), board.current.shape, board.current.x, board.current.y)
    {
      var piece := board.current;
      var rotated := Shapes.Rotate(piece.shape, direction);
      var hello := new Tetromino(rotated, piece.kind);
      hello.x := piece.x;
      hello.y := piece.y;
      DeltaTable();
      var ok := board.CanPlacePiece(hello, "rotation");
      if ok {
        piece.shape := rotated;
        RotatePreservesCount(old(piece.shape), direction);
        FitsInBounds(board.Field(), rotated, piece.x, piece.y);
        FitsIffLegal(board.Field(), rotated, piece.x, piece.y);
      }
    }

    /** Move the piece one column left when it fits there. */
    method MoveLeft()
      requires board.Valid()
      modifies board.current
      ensures board.Valid() && unchanged(board) && unchanged(board.grid.cells)
      ensures board.current.shape == old(board.current.shape) && board.current.y == old(board.current.y)
      ensures var target := old(board.current.x) - 1;
        if Fits(board.Field(), board.current.shape, target, board.current.y)
        then board.current.x == target
        else board.current.x == old(board.current.x)
      ensures board.current.x != old(board.current.x) ==>
        Legal(board.Field(), board.current.shape, board.current.x, board.current.y)
    {
      var piece := board.current;
      DeltaTable();
      var ok := board.CanPlacePiece(piece, "left");
      if ok {
        piece.x := piece.x - 1;
        FitsInBounds(board.Field(), piece.shape, piece.x, piece.y);
        FitsIffLegal(board.Field(), piece.shape, piece.x, piece.y);
      }
    }

    /** Move the piece one column right when it fits there. */
    method MoveRight()
      requires board.Valid()
      modifies board.current
      ensures board.Valid() && unchanged(board) && unchanged(board.grid.cells)
      ensures board.current.shape == old(board.current.shape) && board.current.y == old(board.current.y)
      ensures var target := old(board.current.x) + 1;
        if Fits(board.Field(), board.current.shape, target, board.current.y)
        then board.current.x == target
        else board.current.x == old(board.current.x)
      ensures board.current.x != old(board.current.x) ==>
        Legal(board.Field(), board.current.shape, board.current.x, board.current.y)
    {
      var piece := board.current;
      DeltaTable();
      var ok := board.CanPlacePiece(piece, "right");
      if ok {
        piece.x := piece.x + 1;
        FitsInBounds(board.Field(), piece.shape, piece.x, piece.y);
        FitsIffLegal(board.Field(), piece.shape, piece.x, piece.y);
      }
    }

    /** Move the piece one row down (a soft drop step) when it fits there. */
    method MoveDown()
      requires board.Valid()
      modifies board.current
      ensures board.Valid() && unchanged(board) && unchanged(board.grid.cells)
      ensures board.current.shape == old(board.current.shape) && board.current.x == old(board.current.x)
      ensures var target := old(board.current.y) + 1;
        if Fits(board.Field(), board.current.shape, board.current.x, target)
        then board.current.y == target
        else board.current.y == old(board.current.y)
      ensures board.current.y != old(board.current.y) ==>
        Legal(board.Field(), board.current.shape, board.current.x, board.current.y)
    {
      var piece := board.current;
      DeltaTable();
      var ok := board.CanPlacePiece(piece, "down");
      if ok {
        piece.y := piece.y + 1;
        FitsInBounds(board.Field(), piece.shape, piece.x, piece.y);
        FitsIffLegal(board.Field(), piece.shape, piece.x, piece.y);
      }
    }

    /** Move the piece one row up when it fits there. */
    method MoveUp()
      requires board.Valid()
      modifies board.current
      ensures board.Valid() && unchanged(board) && unchanged(board.grid.cells)
      ensures board.current.shape == old(board.current.shape) && board.current.x == old(board.current.x)
      ensures var target := old(board.current.y) - 1;
        if Fits(board.Field(), board.current.shape, board.current.x, target)
        then board.current.y == target
        else board.current.y == old(board.current.y)
      ensures board.current.y != old(board.current.y) ==>
        Legal(board.Field(), board.current.shape, board.current.x, board.current.y)
    {
      var piece := board.current;
      DeltaTable();
      var ok := board.CanPlacePiece(piece, "up");
      if ok {
        piece.y := piece.y - 1;
        FitsInBounds(board.Field(), piece.shape, piece.x, piece.y);
        FitsIffLegal(board.Field(), piece.shape, piece.x, piece.y);
      }
    }
  }
}

/** The game state and its rules (Board.cs): the settled grid, the falling
    piece, the score and the game-over flag. */
module Boards {
  import opened Blocks
  import opened Shapes
  import opened Rules
  import opened Pieces
  import opened Factory
  import opened Grids

  /** `p` is the piece a spawn with random draw `draw` creates. */
  ghost predicate IsSpawn(p: Tetromino, draw: int)
    reads p
  {
    p.kind == KindAt(draw) && p.kind != Empty && p.shape == ShapeOf(p.kind) &&
    p.color == AssignColor(p.kind) && p.x == SpawnX && p.y == SpawnY
  }

  class Board {
    /** The settled cells; the same grid for the whole game. */
    const grid: Grid
    /** The falling piece; replaced by a new one at each spawn. */
    var current: Tetromino
    var gameOver: bool
    var score: int

    /** The board invariant: the falling piece has four squares, all of them
        on the board (it spawns on the board and only moves to places the fit
        test accepted), and the score is never negative. */
    ghost predicate Valid()
      reads this, current
    {
      grid.Valid() &&
      |Cells(current.shape)| == 4 &&
      InBounds(current.shape, current.x, current.y) &&
      score >= 0
    }

    /** The settled cells as a playfield value: `grid.Snapshot()` seen
        from the board. It is kept as a function of its own so that the
        board's proofs work with this one name and unfold the snapshot's
        cell-by-cell definition only where a step needs it; written out in
        place, the row-clearing proof exceeds the solver's budget. */
    ghost function Field(): (g: seq<Row>)
      requires grid.Valid()
      reads grid.cells
      ensures IsField(g)
    {
      grid.Snapshot()
    }

    /** A new board on an empty grid, holding its first piece. The spawn
        check always passes on the empty grid, so the first piece is created
        directly. */
    constructor (draw: int)
      ensures Valid() && fresh(grid) && fresh(grid.cells) && fresh(current)
      ensures Field() == EmptyField() && score == 0 && !gameOver
      ensures IsSpawn(current, draw)
    {
      grid := new Grid();
      var first := CreateRandomPiece(draw);
      current := first;
      gameOver := false;
      score := 0;
      new;
      FourSquares(current.kind);
      SpawnInBounds(current.kind);
    }

    /** A new piece comes in when the spawn cell (row 0, column 5) is free;
        otherwise nothing happens (in particular the game does not end). */
    method SpawnPiece(draw: int)
      requires Valid()
      modifies this`current
      ensures Valid()
      ensures !grid.cells[SpawnY, SpawnX].filled ==> fresh(current) && IsSpawn(current, draw)
      ensures grid.cells[SpawnY, SpawnX].filled ==> current == old(current)
    {
      if !grid.cells[SpawnY, SpawnX].filled {
        current := CreateRandomPiece(draw);
        FourSquares(current.kind);
        SpawnInBounds(current.kind);
      }
    }

    /** Whether any cell of the top row is filled. */
    method TopRowOccupied() returns (occupied: bool)
      requires grid.Valid()
      ensures occupied == TopFilled(Field())
    {
      var c := 0;
      while c < Cols
        invariant 0 <= c <= Cols
        invariant forall j :: 0 <= j < c ==> !grid.cells[0, j].filled
      {
        if grid.cells[0, c].filled {
          return true;
        }
        c := c + 1;
      }
      return false;
    }

    /** What is drawn at (row, col): a filled cell of the piece's colour
        where the falling piece has a square, the settled cell elsewhere. */
    method GetCell(row: int, col: int) returns (cell: Cell)
      requires Valid() && OnBoard(row, col)
      ensures Covers(current.shape, current.x, current.y, row, col) ==> cell == Cell(true, current.color)
      ensures !Covers(current.shape, current.x, current.y, row, col) ==> cell == Field()[row][col]
    {
      var shape := current.shape;
      var y := 0;
      while y < shape.rows
        invariant 0 <= y <= shape.rows
        invariant !(Covers(shape, current.x, current.y, row, col) && row - current.y < y)
      {
        var x := 0;
        while x < shape.cols
          invariant 0 <= x <= shape.cols
          invariant !(Covers(shape, current.x, current.y, row, col) && row - current.y < y)
          invariant !(Covers(shape, current.x, current.y, row, col) && row - current.y == y && col - current.x < x)
        {
          if shape.bits[y][x] {
            var boardRow := current.y + y;
            var boardCol := current.x + x;
            if boardRow == row && boardCol == col {
              return Cell(true, current.color);
            }
          }
          x := x + 1;
        }
        y := y + 1;
      }
      cell := grid.Get(row, col);
    }

    /** The legality test: whether every square of `piece`, moved one step
        in `direction`, lands on the board on a cell that is not filled. */
    method CanPlacePiece(piece: Tetromino, direction: string) returns (ok: bool)
      requires grid.Valid()
      ensures ok == Fits(Field(), piece.shape, piece.x + Delta(direction).0, piece.y + Delta(direction).1)
      ensures ok <==> Legal(Field(), piece.shape, piece.x + Delta(direction).0, piece.y + Delta(direction).1)
    {
      var dx: int, dy: int := Delta(direction).0, Delta(direction).1;
      var m := piece.shape;
      ghost var g: seq<Row> := Field();
      ghost var fits := Fits(g, m, piece.x + dx, piece.y + dy);
      FitsIffLegal(g, m, piece.x + dx, piece.y + dy);
      var row := 0;
      while row < m.rows
        invariant 0 <= row <= m.rows
        invariant fits == FitsFrom(g, m, piece.x + dx, piece.y + dy, row, 0)
      {
        var col := 0;
        while col < m.cols
          invariant 0 <= col <= m.cols
          invariant fits == FitsFrom(g, m, piece.x + dx, piece.y + dy, row, col)
        {
          if m.bits[row][col] {
            var boardRow := piece.y + row + dy;
            var boardCol := piece.x + col + dx;
            if boardRow < 0 || boardRow >= Rows || boardCol < 0 || boardCol >= Cols {
              return false;
            }
            if grid.cells[boardRow, boardCol].filled {
              return false;
            }
          }
          col := col + 1;
        }
        row := row + 1;
      }
      return true;
    }

    /** Add the points for `lines` rows cleared by one lock. */
    method ScoreLines(lines: int)
      modifies this`score
      ensures score == old(score) + Points(lines)
    {
      if lines <= 0 {
        return;
      }
      var gained;
      if lines == 1 {
        gained := 100;
      } else if lines == 2 {
        gained := 300;
      } else if lines == 3 {
        gained := 500;
      } else if lines == 4 {
        gained := 800;
      } else {
        gained := 1000 + (lines - 4) * 400;
      }
      score := score + gained;
    }

    /** Number of filled cells in one row of the grid. */
    method CountRow(row: int) returns (count: int)
      requires grid.Valid() && 0 <= row < Rows
      ensures count == CountFilled(Field()[row])
    {
      ghost var line := Field()[row];
      count := 0;
      var col := 0;
      while col < Cols
        invariant 0 <= col <= Cols
        invariant count == CountFilled(line[..col])
      {
        assert line[..col + 1][..col] == line[..col];
        if grid.cells[row, col].filled {
          count := count + 1;
        }
        col := col + 1;
      }
      assert line[..Cols] == line;
    }

    /** Set every cell of one row to the empty cell. */
    method EmptyRowAt(row: int)
      requires grid.Valid() && 0 <= row < Rows
      modifies grid.cells
      ensures Field() == old(Field())[row := EmptyRow()]
    {
      ghost var g := Field();
      var col := 0;
      while col < Cols
        invariant 0 <= col <= Cols
        invariant forall i, c :: OnBoard(i, c) && i != row ==> grid.cells[i, c] == g[i][c]
        invariant forall c :: 0 <= c < col ==> grid.cells[row, c] == EmptyCell
      {
        grid.cells[row, col] := EmptyCell;
        col := col + 1;
      }
      FieldExt(Field(), g[row := EmptyRow()]);
    }

    /** Copy row `r - 1` over row `r`. */
    method CopyRowDown(r: int)
      requires grid.Valid() && 0 < r < Rows
      modifies grid.cells
      ensures Field() == old(Field())[r := old(Field())[r - 1]]
    {
      ghost var g := Field();
      var col := 0;
      while col < Cols
        invariant 0 <= col <= Cols
        invariant forall i, c :: OnBoard(i, c) && i != r ==> grid.cells[i, c] == g[i][c]
        invariant forall c :: 0 <= c < col ==> grid.cells[r, c] == g[r - 1][c]
      {
        grid.cells[r, col] := grid.cells[r - 1, col];
        col := col + 1;
      }
      FieldExt(Field(), g[r := g[r - 1]]);
    }

    /** Clear the full row `row`: empty it, move every row above it down by
        one, and empty the top row. */
    method ClearRow(row: int)
      requires grid.Valid() && 0 <= row < Rows
      modifies grid.cells
      ensures Field() == ClearAt(old(Field()), row)
    {
      ghost var g := Field();
      EmptyRowAt(row);
      var r := row;
      while r > 0
        invariant 0 <= r <= row
        invariant forall i :: 0 <= i < r ==> Field()[i] == g[i]
        invariant Field()[r] == if r == row then EmptyRow() else g[r]
        invariant forall i :: r < i <= row ==> Field()[i] == g[i - 1]
        invariant forall i :: row < i < Rows ==> Field()[i] == g[i]
      {
        CopyRowDown(r);
        r := r - 1;
      }
      EmptyRowAt(0);
      assert forall i :: 0 <= i < Rows ==> Field()[i] == ClearAt(g, row)[i];
    }

    /** Remove every full row and add the points for them: the body of
        Board.RemoveRow. */
    method RemoveRow()
      requires Valid()
      modifies this`score, grid.cells
      ensures Valid()
      ensures Field() == Collapse(old(Field()))
      ensures score == old(score) + Points(FullRows(old(Field())))
    {
      var linesCleared := ClearFullRows();
      ScoreLines(linesCleared);
    }

    /** The scan of RemoveRow, from the top row down. After a clear the scan
        stays on the same row index, since a new row has moved into it. */
    method ClearFullRows() returns (linesCleared: int)
      requires grid.Valid()
      modifies grid.cells
      ensures Field() == Collapse(old(Field()))
      ensures linesCleared == FullRows(old(Field()))
    {
      ghost var g0 := Field();
      ghost var k := 0;
      linesCleared := 0;
      var row := 0;
      while row < Rows
        invariant 0 <= row <= Rows && (k == row || k == row + 1) && k <= Rows
        invariant Field() == Scanned(g0, k)
        invariant linesCleared == FullRows(g0[..k])
        decreases FieldFilled(Field()), Rows - row
      {
        var cleared := ScanRow(row, g0, k);
        if cleared {
          linesCleared := linesCleared + 1;
          k := row + 1;
        } else {
          k := row + 1;
          row := row + 1;
        }
      }
      ScanDone(g0);
    }

    /** One pass of the scan's loop body at `row`: count the row's filled
        cells and, when all ten are, clear it. */
    method ScanRow(row: int, ghost g0: seq<Row>, ghost k: nat) returns (cleared: bool)
      requires grid.Valid() && 0 <= row < Rows && |g0| == Rows
      requires (k == row || k == row + 1) && Field() == Scanned(g0, k)
      modifies grid.cells
      ensures cleared ==> k == row && Field() == Scanned(g0, k + 1)
      ensures cleared ==> FullRows(g0[..k + 1]) == FullRows(g0[..k]) + 1
      ensures cleared ==> FieldFilled(Field()) < FieldFilled(old(Field()))
      ensures !cleared ==> Field() == old(Field()) == Scanned(g0, row + 1)
      ensures !cleared ==> FullRows(g0[..row + 1]) == FullRows(g0[..k])
    {
      var countFilled := CountRow(row);
      cleared := countFilled == Cols;
      if cleared {
        ScanFull(g0, k, row);
        ClearRow(row);
      } else {
        ScanNotFull(g0, k, row);
      }
    }

    /** Drop the falling piece straight down while the step below fits. */
    method HardDrop()
      requires Valid()
      modifies current
      ensures Valid()
      ensures current.shape == old(current.shape) && current.x == old(current.x)
      ensures current.y == DropRow(Field(), current.shape, current.x, old(current.y))
    {
      ghost var y0 := current.y;
      DropPiece(current);
      if current.y > y0 {
        FitsInBounds(Field(), current.shape, current.x, current.y);
      }
    }

    /** The loop of the hard drop: step `piece` down while the fit test for
        "down" accepts. */
    method DropPiece(piece: Tetromino)
      requires grid.Valid() && Cells(piece.shape) != {}
      modifies piece`y
      ensures piece.y >= old(piece.y)
      ensures piece.y == DropRow(Field(), piece.shape, piece.x, old(piece.y))
      ensures piece.y == old(piece.y) || Fits(Field(), piece.shape, piece.x, piece.y)
    {
      ghost var g := Field();
      ghost var y0 := piece.y;
      var canDrop := CanMoveDown(piece);
      while canDrop
        invariant piece.y >= y0
        invariant DropRow(g, piece.shape, piece.x, piece.y) == DropRow(g, piece.shape, piece.x, y0)
        invariant piece.y == y0 || Fits(g, piece.shape, piece.x, piece.y)
        invariant canDrop == Fits(g, piece.shape, piece.x, piece.y + 1)
        decreases Rows - piece.y
      {
        DropRowStep(g, piece.shape, piece.x, piece.y);
        piece.y := piece.y + 1;
        canDrop := CanMoveDown(piece);
      }
      DropRowStep(g, piece.shape, piece.x, piece.y);
    }

    /** `CanPlacePiece(piece, "down")`: whether the piece fits one row lower. */
    method CanMoveDown(piece: Tetromino) returns (ok: bool)
      requires grid.Valid()
      ensures ok == Fits(Field(), piece.shape, piece.x, piece.y + 1)
    {
      DeltaTable();
      ok := CanPlacePiece(piece, "down");
    }

    /** Write every square of the falling piece into the grid as a filled
        cell of the piece's colour. */
    method MergePiece()
      requires Valid()
      modifies grid.cells
      ensures Field() == Merge(old(Field()), current.shape, current.x, current.y, current.color)
    {
      ghost var g0 := Field();
      var m := current.shape;
      var row := 0;
      while row < m.rows
        invariant 0 <= row <= m.rows
        invariant forall r, c :: OnBoard(r, c) ==>
          grid.cells[r, c] == (if Covers(m, current.x, current.y, r, c) && r - current.y < row then Cell(true, current.color) else g0[r][c])
      {
        var col := 0;
        while col < m.cols
          invariant 0 <= col <= m.cols
          invariant forall r, c :: OnBoard(r, c) ==>
            grid.cells[r, c] == (if Covers(m, current.x, current.y, r, c) && (r - current.y < row || (r - current.y == row && c - current.x < col))
                                 then Cell(true, current.color) else g0[r][c])
        {
          var boardRow := current.y + row;
          var boardCol := current.x + col;
          if m.bits[row][col] {
            grid.cells[boardRow, boardCol] := Cell(true, current.color);
          }
          col := col + 1;
        }
        row := row + 1;
      }
      FieldExt(Field(), Merge(g0, m, current.x, current.y, current.color));
    }

    /** Lock the falling piece: drop it as far as it fits, write it into the
        grid, clear full rows and score them, then end the game if the top
        row is taken or else spawn the next piece (drawn with `draw`). */
    method PlacePiece(draw: int)
      requires Valid()
      modifies this, current, grid.cells
      ensures Valid()
      ensures old(current).shape == old(current.shape) && old(current).x == old(current.x)
      ensures old(current).y == DropRow(old(Field()), old(current.shape), old(current.x), old(current.y))
      ensures Field() == Collapse(Merge(old(Field()), old(current.shape), old(current.x), old(current).y, old(current).color))
      ensures score == old(score) + Points(FullRows(Merge(old(Field()), old(current.shape), old(current.x), old(current).y, old(current).color)))
      ensures gameOver == (old(gameOver) || TopFilled(Field()))
      ensures TopFilled(Field()) ==> current == old(current)
      ensures !TopFilled(Field()) ==> fresh(current) && IsSpawn(current, draw)
    {
      LockPiece();
      EndOrSpawn(draw);
    }

    /** Steps 1 to 3 of PlacePiece: the hard drop, the merge and the row
        clearing with its score. */
    method LockPiece()
      requires Valid()
      modifies current, this`score, grid.cells
      ensures Valid() && current == old(current)
      ensures current.shape == old(current.shape) && current.x == old(current.x)
      ensures current.y == DropRow(old(Field()), current.shape, current.x, old(current.y))
      ensures Field() == Collapse(Merge(old(Field()), current.shape, current.x, current.y, current.color))
      ensures score == old(score) + Points(FullRows(Merge(old(Field()), current.shape, current.x, current.y, current.color)))
    {
      HardDrop();
      MergePiece();
      RemoveRow();
    }

    /** Step 4 of PlacePiece: the game ends when the top row is taken;
        otherwise the next piece spawns, which always succeeds since the
        spawn cell is in the top row. */
    method EndOrSpawn(draw: int)
      requires Valid()
      modifies this`gameOver, this`current
      ensures Valid()
      ensures gameOver == (old(gameOver) || TopFilled(Field()))
      ensures TopFilled(Field()) ==> current == old(current)
      ensures !TopFilled(Field()) ==> fresh(current) && IsSpawn(current, draw)
    {
      var topTaken := TopRowOccupied();
      if topTaken {
        gameOver := true;
        return;
      }
      assert !grid.cells[SpawnY, SpawnX].filled by {
        assert !Field()[0][SpawnX].filled;
      }
      SpawnPiece(draw);
    }
  }
}

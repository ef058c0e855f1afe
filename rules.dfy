/** The playfield rules of Board.cs stated on values: a snapshot of the
    20 x 10 grid is a sequence of rows, and each rule is a function on it.
    The `Board` class is proved against these functions. */
module Rules {
  import opened Blocks
  import opened Shapes

  type Row = seq<Cell>

  /** A snapshot of the playfield: exactly 20 rows of 10 cells. */
  predicate IsField(g: seq<Row>)
  {
    |g| == Rows && forall r :: 0 <= r < |g| ==> |g[r]| == Cols
  }

  predicate OnBoard(row: int, col: int)
  {
    0 <= row < Rows && 0 <= col < Cols
  }

  /** The row with no block in it. */
  function EmptyRow(): Row
  {
    seq(Cols, _ => EmptyCell)
  }

  /** The playfield before any piece is locked. */
  function EmptyField(): seq<Row>
  {
    seq(Rows, _ => EmptyRow())
  }

  /** Two playfields that agree cell by cell are equal. */
  lemma {:induction false} FieldExt(g: seq<Row>, h: seq<Row>)
    requires IsField(g) && IsField(h)
    requires forall r, c :: OnBoard(r, c) ==> g[r][c] == h[r][c]
    ensures g == h
  {
    forall r | 0 <= r < Rows
      ensures g[r] == h[r]
    {
      assert forall c :: 0 <= c < Cols ==> g[r][c] == h[r][c];
    }
  }

  // ---------------------------------------------------------------------
  // Legality (Board.CanPlacePiece)

  /** The (dx, dy) step a direction name stands for; an unknown name,
      like "rotation", is checked in place. */
  function Delta(direction: string): (d: (int, int))
    ensures direction != "left" && direction != "right" && direction != "down" && direction != "up" ==> d == (0, 0)
    ensures d.0 == 0 || d.1 == 0
    ensures -1 <= d.0 <= 1 && -1 <= d.1 <= 1
  {
    if direction == "left" then (-1, 0)
    else if direction == "right" then (1, 0)
    else if direction == "down" then (0, 1)
    else if direction == "up" then (0, -1)
    else (0, 0)
  }

  /** The direction table of the fit test. */
  lemma DeltaTable()
    ensures Delta("left") == (-1, 0) && Delta("right") == (1, 0)
    ensures Delta("down") == (0, 1) && Delta("up") == (0, -1)
    ensures Delta("rotation") == (0, 0)
  {
  }

  /** Every occupied square of `m`, with the box's top-left corner at
      column `x`, row `y`, lies on the board. */
  predicate InBounds(m: Shape, x: int, y: int)
  {
    forall r, c :: 0 <= r < m.rows && 0 <= c < m.cols && m.bits[r][c] ==> OnBoard(y + r, x + c)
  }

  /** Square (r, c) of the shape is either off, or lands on the board on a
      cell that is not filled. */
  predicate SquareFits(g: seq<Row>, m: Shape, x: int, y: int, r: int, c: int)
    requires IsField(g) && 0 <= r < m.rows && 0 <= c < m.cols
  {
    !m.bits[r][c] || (OnBoard(y + r, x + c) && !g[y + r][x + c].filled)
  }

  /** The fit test as Board.CanPlacePiece scans it: the squares from (r, c)
      on, in row-major order, all fit. */
  predicate FitsFrom(g: seq<Row>, m: Shape, x: int, y: int, r: nat, c: nat)
    requires IsField(g)
    decreases m.rows - r, m.cols - c
  {
    if r >= m.rows then true
    else if c >= m.cols then FitsFrom(g, m, x, y, r + 1, 0)
    else SquareFits(g, m, x, y, r, c) && FitsFrom(g, m, x, y, r, c + 1)
  }

  /** The placement is legal: the whole scan succeeds. */
  predicate Fits(g: seq<Row>, m: Shape, x: int, y: int)
    requires IsField(g)
  {
    FitsFrom(g, m, x, y, 0, 0)
  }

  /** The reference definition of a legal placement: every occupied square
      is on the board and on a cell that is not filled. */
  predicate Legal(g: seq<Row>, m: Shape, x: int, y: int)
    requires IsField(g)
  {
    forall r, c :: 0 <= r < m.rows && 0 <= c < m.cols && m.bits[r][c] ==>
      OnBoard(y + r, x + c) && !g[y + r][x + c].filled
  }

  /** The scan from (r, c) succeeds exactly when every square at or after
      (r, c) in row-major order fits. */
  lemma {:induction false} FitsFromIff(g: seq<Row>, m: Shape, x: int, y: int, r: nat, c: nat)
    requires IsField(g) && c <= m.cols
    ensures FitsFrom(g, m, x, y, r, c) <==>
      (forall i, j :: r <= i < m.rows && 0 <= j < m.cols && (i > r || j >= c) ==> SquareFits(g, m, x, y, i, j))
    decreases m.rows - r, m.cols - c
  {
    if r >= m.rows {
    } else if c >= m.cols {
      FitsFromIff(g, m, x, y, r + 1, 0);
    } else {
      FitsFromIff(g, m, x, y, r, c + 1);
    }
  }

  /** The scan and the reference definition agree on every placement. */
  lemma FitsIffLegal(g: seq<Row>, m: Shape, x: int, y: int)
    requires IsField(g)
    ensures Fits(g, m, x, y) <==> Legal(g, m, x, y)
  {
    FitsFromIff(g, m, x, y, 0, 0);
    if Fits(g, m, x, y) {
      forall r, c | 0 <= r < m.rows && 0 <= c < m.cols && m.bits[r][c]
        ensures OnBoard(y + r, x + c) && !g[y + r][x + c].filled
      {
        assert SquareFits(g, m, x, y, r, c);
      }
    }
  }

  /** Whether the piece covers board position (row, col). */
  predicate Covers(m: Shape, x: int, y: int, row: int, col: int)
  {
    0 <= row - y < m.rows && 0 <= col - x < m.cols && m.bits[row - y][col - x]
  }

  /** A placement whose squares all lie on the board has its anchor row
      above the bottom edge, as long as the shape has a square at all. */
  lemma AnchorAboveBottom(m: Shape, x: int, y: int)
    requires Cells(m) != {}
    requires InBounds(m, x, y)
    ensures y < Rows
  {
    var p :| p in Cells(m);
  }

  // ---------------------------------------------------------------------
  // Hard drop (the first loop of Board.PlacePiece)

  /** The row the hard drop stops at: keep stepping down while the step
      below still fits. */
  function DropRow(g: seq<Row>, m: Shape, x: int, y: int): (d: int)
    requires IsField(g) && Cells(m) != {}
    ensures d >= y
    decreases Rows - y
  {
    if Fits(g, m, x, y + 1) then
      FitsInBounds(g, m, x, y + 1);
      AnchorAboveBottom(m, x, y + 1);
      DropRow(g, m, x, y + 1)
    else y
  }

  /** The drop only moves down, every row it passes through fits, and the
      row below where it stops does not. */
  lemma {:induction false} DropRowSpec(g: seq<Row>, m: Shape, x: int, y: int)
    requires IsField(g) && Cells(m) != {}
    ensures DropRow(g, m, x, y) >= y
    ensures forall k :: y < k <= DropRow(g, m, x, y) ==> Fits(g, m, x, k)
    ensures !Fits(g, m, x, DropRow(g, m, x, y) + 1)
    decreases Rows - y
  {
    if Fits(g, m, x, y + 1) {
      FitsInBounds(g, m, x, y + 1);
      AnchorAboveBottom(m, x, y + 1);
      DropRowSpec(g, m, x, y + 1);
    }
  }

  /** One step of the drop: when the row below fits, the drop continues
      from there; when it does not, the drop stops here. */
  lemma DropRowStep(g: seq<Row>, m: Shape, x: int, y: int)
    requires IsField(g) && Cells(m) != {}
    ensures Fits(g, m, x, y + 1) ==> DropRow(g, m, x, y) == DropRow(g, m, x, y + 1)
    ensures !Fits(g, m, x, y + 1) ==> DropRow(g, m, x, y) == y
    ensures Fits(g, m, x, y + 1) ==> y + 1 < Rows
  {
    if Fits(g, m, x, y + 1) {
      FitsInBounds(g, m, x, y + 1);
      AnchorAboveBottom(m, x, y + 1);
    }
  }

  /** A placement that fits is on the board, so a position the drop reached
      keeps the piece in bounds. */
  lemma FitsInBounds(g: seq<Row>, m: Shape, x: int, y: int)
    requires IsField(g) && Fits(g, m, x, y)
    ensures InBounds(m, x, y)
  {
    FitsIffLegal(g, m, x, y);
  }

  /** Where the hard drop stops: on the floor (a square in the bottom row)
      or on a settled block (a square directly above a filled cell). */
  lemma {:induction false} DropRestsOnSomething(g: seq<Row>, m: Shape, x: int, y: int)
    requires IsField(g) && Cells(m) != {} && InBounds(m, x, y)
    ensures var d := DropRow(g, m, x, y);
      exists r, c :: 0 <= r < m.rows && 0 <= c < m.cols && m.bits[r][c] &&
        (d + r == Rows - 1 || (OnBoard(d + r + 1, x + c) && g[d + r + 1][x + c].filled))
  {
    var d := DropRow(g, m, x, y);
    DropRowSpec(g, m, x, y);
    assert InBounds(m, x, d) by {
      if d > y { FitsInBounds(g, m, x, d); }
    }
    FitsIffLegal(g, m, x, d + 1);
    var r, c :| 0 <= r < m.rows && 0 <= c < m.cols && m.bits[r][c] &&
      !(OnBoard(d + 1 + r, x + c) && !g[d + 1 + r][x + c].filled);
    assert OnBoard(d + r, x + c);
  }

  // ---------------------------------------------------------------------
  // Merge (the second loop of Board.PlacePiece)

  /** The playfield with the piece's squares written into it as filled
      cells of the piece's colour. */
  function Merge(g: seq<Row>, m: Shape, x: int, y: int, color: string): (h: seq<Row>)
    requires IsField(g)
    ensures IsField(h)
  {
    seq(Rows, r requires 0 <= r < Rows =>
      seq(Cols, c requires 0 <= c < Cols =>
        if Covers(m, x, y, r, c) then Cell(true, color) else g[r][c]))
  }

  /** Merging writes every square of an in-bounds piece and leaves every
      cell it does not cover as it was. */
  lemma MergeWritesSquares(g: seq<Row>, m: Shape, x: int, y: int, color: string)
    requires IsField(g) && InBounds(m, x, y)
    ensures forall r, c :: 0 <= r < m.rows && 0 <= c < m.cols && m.bits[r][c] ==>
      Merge(g, m, x, y, color)[y + r][x + c] == Cell(true, color)
    ensures forall row, col :: OnBoard(row, col) && (row - y, col - x) !in Cells(m) ==>
      Merge(g, m, x, y, color)[row][col] == g[row][col]
  {
  }

  // ---------------------------------------------------------------------
  // Row clearing (Board.RemoveRow)

  /** Number of filled cells in a row. */
  function CountFilled(row: Row): (n: nat)
    ensures n <= |row|
  {
    if row == [] then 0
    else CountFilled(row[..|row| - 1]) + (if row[|row| - 1].filled then 1 else 0)
  }

  /** A row whose ten cells are all counted as filled. */
  predicate Full(row: Row)
  {
    CountFilled(row) == Cols
  }

  /** The count equals the length exactly when every cell is filled. */
  lemma {:induction false} CountFilledAll(row: Row)
    ensures CountFilled(row) == |row| <==> forall c :: 0 <= c < |row| ==> row[c].filled
  {
    if row != [] {
      var init := row[..|row| - 1];
      CountFilledAll(init);
      assert forall c :: 0 <= c < |init| ==> init[c] == row[c];
    }
  }

  /** A row with no filled cell counts zero. */
  lemma {:induction false} CountFilledNone(row: Row)
    requires forall c :: 0 <= c < |row| ==> !row[c].filled
    ensures CountFilled(row) == 0
  {
    if row != [] {
      CountFilledNone(row[..|row| - 1]);
    }
  }

  /** Number of filled cells on a whole playfield. */
  function FieldFilled(g: seq<Row>): nat
  {
    if g == [] then 0 else FieldFilled(g[..|g| - 1]) + CountFilled(g[|g| - 1])
  }

  lemma {:induction false} FieldFilledAppend(a: seq<Row>, b: seq<Row>)
    ensures FieldFilled(a + b) == FieldFilled(a) + FieldFilled(b)
    decreases |b|
  {
    if b == [] {
      assert a + b == a;
    } else {
      var b' := b[..|b| - 1];
      assert (a + b)[..|a + b| - 1] == a + b';
      assert (a + b)[|a + b| - 1] == b[|b| - 1];
      FieldFilledAppend(a, b');
    }
  }

  /** The rows of `g` that are not full, in their original order. */
  function Kept(g: seq<Row>): (k: seq<Row>)
    ensures |k| <= |g|
    ensures forall i :: 0 <= i < |k| ==> !Full(k[i])
  {
    if g == [] then []
    else if Full(g[|g| - 1]) then Kept(g[..|g| - 1])
    else Kept(g[..|g| - 1]) + [g[|g| - 1]]
  }

  /** Number of full rows of `g`: the lines a lock clears. */
  function FullRows(g: seq<Row>): nat
  {
    if g == [] then 0 else FullRows(g[..|g| - 1]) + (if Full(g[|g| - 1]) then 1 else 0)
  }

  /** Every row is either kept or counted as cleared. */
  lemma {:induction false} KeptPlusFull(g: seq<Row>)
    ensures |Kept(g)| + FullRows(g) == |g|
  {
    if g != [] {
      KeptPlusFull(g[..|g| - 1]);
    }
  }

  /** `n` empty rows. */
  function Empties(n: nat): (e: seq<Row>)
    ensures |e| == n
  {
    seq(n, _ => EmptyRow())
  }

  /** The playfield after every full row is removed: the rows that were not
      full, in their original order, pushed to the bottom under empty rows. */
  function Collapse(g: seq<Row>): (c: seq<Row>)
    ensures |c| == |g|
  {
    KeptPlusFull(g);
    Empties(FullRows(g)) + Kept(g)
  }

  lemma EmptyRowNotFull()
    ensures !Full(EmptyRow())
  {
    CountFilledNone(EmptyRow());
  }

  /** Collapsing keeps the number of rows, leaves no full row, and on a
      playfield keeps the row width. */
  lemma {:induction false} CollapseShape(g: seq<Row>)
    ensures |Collapse(g)| == |g|
    ensures forall i :: 0 <= i < |g| ==> !Full(Collapse(g)[i])
    ensures (forall i :: 0 <= i < |g| ==> |g[i]| == Cols) ==>
      forall i :: 0 <= i < |g| ==> |Collapse(g)[i]| == Cols
  {
    KeptPlusFull(g);
    EmptyRowNotFull();
    var e := Empties(FullRows(g));
    var k := Kept(g);
    assert Collapse(g) == e + k;
    if forall i :: 0 <= i < |g| ==> |g[i]| == Cols {
      KeptRowsFrom(g);
    }
  }

  /** Every kept row is a row of the original. */
  lemma {:induction false} KeptRowsFrom(g: seq<Row>)
    ensures forall i :: 0 <= i < |Kept(g)| ==> Kept(g)[i] in g
  {
    if g != [] {
      var init := g[..|g| - 1];
      KeptRowsFrom(init);
      assert forall row :: row in init ==> row in g;
    }
  }

  /** Scanning one more row from the top: a full row makes room for one
      more empty row on top, any other row joins the bottom of the result. */
  lemma {:induction false} CollapseStep(s: seq<Row>, x: Row)
    ensures Collapse(s + [x]) == if Full(x) then [EmptyRow()] + Collapse(s) else Collapse(s) + [x]
  {
    var t := s + [x];
    assert t[..|t| - 1] == s;
    assert t[|t| - 1] == x;
    if Full(x) {
      assert Empties(FullRows(s) + 1) == [EmptyRow()] + Empties(FullRows(s));
    }
  }

  /** One clear of row `i` as RemoveRow performs it: the row disappears,
      the rows above it move down by one and an empty row enters at the top. */
  function ClearAt(g: seq<Row>, i: nat): (h: seq<Row>)
    requires i < |g|
    ensures |h| == |g|
    ensures h[0] == EmptyRow()
    ensures forall r :: 1 <= r <= i ==> h[r] == g[r - 1]
    ensures forall r :: i < r < |g| ==> h[r] == g[r]
  {
    [EmptyRow()] + g[..i] + g[i + 1..]
  }

  /** One step of the top-to-bottom scan over a full row: with the rows
      above it already collapsed, clearing it gives the collapse of one more
      row, and it counts as one more line. */
  lemma {:induction false} ScanClears(g0: seq<Row>, row: nat)
    requires row < |g0| && Full(g0[row])
    ensures |Collapse(g0[..row])| == row
    ensures ClearAt(Collapse(g0[..row]) + g0[row..], row) == Collapse(g0[..row + 1]) + g0[row + 1..]
    ensures FullRows(g0[..row + 1]) == FullRows(g0[..row]) + 1
  {
    var s := g0[..row + 1];
    assert s == g0[..row] + [g0[row]];
    assert s[..|s| - 1] == g0[..row];
    CollapseStep(g0[..row], g0[row]);
    var cur := Collapse(g0[..row]) + g0[row..];
    assert cur[..row] == Collapse(g0[..row]);
    assert cur[row + 1..] == g0[row + 1..];
  }

  /** One step of the scan over a row that is not full: the row joins the
      collapsed part where it stands, and no line is counted. */
  lemma {:induction false} ScanKeeps(g0: seq<Row>, row: nat)
    requires row < |g0| && !Full(g0[row])
    ensures |Collapse(g0[..row])| == row
    ensures Collapse(g0[..row]) + g0[row..] == Collapse(g0[..row + 1]) + g0[row + 1..]
    ensures FullRows(g0[..row + 1]) == FullRows(g0[..row])
  {
    var s := g0[..row + 1];
    assert s == g0[..row] + [g0[row]];
    assert s[..|s| - 1] == g0[..row];
    CollapseStep(g0[..row], g0[row]);
    assert g0[row..] == [g0[row]] + g0[row + 1..];
  }

  /** The playfield part-way through the scan in RemoveRow: the rows of
      `g` before `k` already collapsed, the rest as they were. */
  function Scanned(g: seq<Row>, k: nat): (s: seq<Row>)
    requires k <= |g|
    ensures |s| == |g|
  {
    Collapse(g[..k]) + g[k..]
  }

  /** The scan in RemoveRow with the cursor on `row`, where the rows of
      `g0` before `k` are already collapsed: when the row under the cursor
      is full, the cursor has not passed it, and clearing it collapses one
      more row of `g0`, counts one more line and removes ten cells. */
  lemma ScanFull(g0: seq<Row>, k: nat, row: nat)
    requires row < |g0| && (k == row || k == row + 1)
    requires Full(Scanned(g0, k)[row])
    ensures k == row
    ensures ClearAt(Scanned(g0, k), row) == Scanned(g0, k + 1)
    ensures FullRows(g0[..k + 1]) == FullRows(g0[..k]) + 1
    ensures FieldFilled(ClearAt(Scanned(g0, k), row)) < FieldFilled(Scanned(g0, k))
  {
    CollapseShape(g0[..k]);
    assert Scanned(g0, k)[row] == g0[row];
    ScanClears(g0, row);
    ClearAtRemovesTen(Scanned(g0, k), row);
  }

  /** The same scan when the row under the cursor is not full: moving the
      cursor on leaves the playfield as it is, with one more row of `g0`
      collapsed and no line counted. */
  lemma ScanNotFull(g0: seq<Row>, k: nat, row: nat)
    requires row < |g0| && (k == row || k == row + 1)
    requires !Full(Scanned(g0, k)[row])
    ensures Scanned(g0, k) == Scanned(g0, row + 1)
    ensures FullRows(g0[..row + 1]) == FullRows(g0[..k])
  {
    if k == row {
      CollapseShape(g0[..k]);
      assert Scanned(g0, k)[row] == g0[row];
      ScanKeeps(g0, row);
    }
  }

  /** When the cursor has passed every row, the whole playfield is
      collapsed and every full row counted. */
  lemma ScanDone(g0: seq<Row>)
    ensures Scanned(g0, |g0|) == Collapse(g0)
    ensures FullRows(g0[..|g0|]) == FullRows(g0)
  {
    assert g0[..|g0|] == g0;
  }

  /** Each clear removes exactly the ten filled cells of the full row. */
  lemma {:induction false} ClearAtRemovesTen(g: seq<Row>, i: nat)
    requires i < |g| && Full(g[i])
    ensures FieldFilled(ClearAt(g, i)) + Cols == FieldFilled(g)
  {
    EmptyRowNotFull();
    CountFilledNone(EmptyRow());
    assert FieldFilled([EmptyRow()]) == 0 by {
      assert [EmptyRow()][..0] == [];
    }
    assert FieldFilled([g[i]]) == Cols by {
      assert [g[i]][..0] == [];
    }
    assert g == g[..i] + [g[i]] + g[i + 1..];
    FieldFilledAppend(g[..i] + [g[i]], g[i + 1..]);
    FieldFilledAppend(g[..i], [g[i]]);
    FieldFilledAppend([EmptyRow()] + g[..i], g[i + 1..]);
    FieldFilledAppend([EmptyRow()], g[..i]);
  }

  /** Some cell of the top row is filled: the game-over test after a lock. */
  predicate TopFilled(g: seq<Row>)
    requires IsField(g)
  {
    exists c :: 0 <= c < Cols && g[0][c].filled
  }

  // ---------------------------------------------------------------------
  // Score table (Board.ScoreLines)

  /** Points for clearing `lines` rows with one lock. */
  function Points(lines: int): (p: int)
    ensures p >= 0
    ensures p == 0 <==> lines <= 0
  {
    if lines <= 0 then 0
    else if lines == 1 then 100
    else if lines == 2 then 300
    else if lines == 3 then 500
    else if lines == 4 then 800
    else 1000 + (lines - 4) * 400
  }

  /** Clearing more lines at once is always worth more. */
  lemma PointsIncrease(a: int, b: int)
    requires 0 <= a < b
    ensures Points(a) < Points(b)
  {
  }
}

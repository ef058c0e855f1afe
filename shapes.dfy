/** Boolean shape matrices of tetrominoes and their 90-degree rotations
    (the `bool[,]` shapes and `Movement.RotatePiece`). */
module Shapes {

  /** A `rows` x `cols` boolean matrix, row-major; `true` marks a square of
      the piece inside its bounding box. */
  datatype BoolMatrix = BoolMatrix(rows: nat, cols: nat, bits: seq<seq<bool>>)

  /** A matrix whose stored rows really have the stated dimensions. Like a
      `bool[,]`, a shape keeps both dimensions even when one of them is 0. */
  type Shape = m: BoolMatrix | |m.bits| == m.rows && forall r :: 0 <= r < m.rows ==> |m.bits[r]| == m.cols
    witness BoolMatrix(0, 0, [])

  /** The occupied squares of a shape, as (row, col) pairs of its box. */
  function Cells(m: Shape): set<(int, int)>
  {
    set r, c | 0 <= r < m.rows && 0 <= c < m.cols && m.bits[r][c] :: (r, c)
  }

  /** Rotation by 90 degrees clockwise: an R x C matrix becomes C x R. */
  function RotateCW(m: Shape): (q: Shape)
    ensures q.rows == m.cols && q.cols == m.rows
    ensures forall r, c :: 0 <= r < m.rows && 0 <= c < m.cols ==> q.bits[c][m.rows - 1 - r] == m.bits[r][c]
  {
    BoolMatrix(m.cols, m.rows,
      seq(m.cols, i requires 0 <= i < m.cols =>
        seq(m.rows, j requires 0 <= j < m.rows => m.bits[m.rows - 1 - j][i])))
  }

  /** Rotation by 90 degrees counter-clockwise: an R x C matrix becomes C x R. */
  function RotateCCW(m: Shape): (q: Shape)
    ensures q.rows == m.cols && q.cols == m.rows
    ensures forall r, c :: 0 <= r < m.rows && 0 <= c < m.cols ==> q.bits[m.cols - 1 - c][r] == m.bits[r][c]
  {
    BoolMatrix(m.cols, m.rows,
      seq(m.cols, i requires 0 <= i < m.cols =>
        seq(m.rows, j requires 0 <= j < m.rows => m.bits[j][m.cols - 1 - i])))
  }

  /** The rotation `RotatePiece` builds: "clockwise" turns clockwise, every
      other direction string turns counter-clockwise. */
  function Rotate(m: Shape, direction: string): (q: Shape)
    ensures q.rows == m.cols && q.cols == m.rows
    ensures direction == "clockwise" ==> q == RotateCW(m)
    ensures direction != "clockwise" ==> q == RotateCCW(m)
  {
    if direction == "clockwise" then RotateCW(m) else RotateCCW(m)
  }

  /** Two shapes with the same dimensions and the same squares are equal. */
  lemma {:induction false} ShapeExt(a: Shape, b: Shape)
    requires a.rows == b.rows && a.cols == b.cols
    requires forall r, c :: 0 <= r < a.rows && 0 <= c < a.cols ==> a.bits[r][c] == b.bits[r][c]
    ensures a == b
  {
    forall r | 0 <= r < a.rows
      ensures a.bits[r] == b.bits[r]
    {
    }
  }

  /** A clockwise turn is undone by a counter-clockwise turn. */
  lemma {:induction false} CCWUndoesCW(m: Shape)
    ensures RotateCCW(RotateCW(m)) == m
  {
    ShapeExt(RotateCCW(RotateCW(m)), m);
  }

  /** A counter-clockwise turn is undone by a clockwise turn. */
  lemma {:induction false} CWUndoesCCW(m: Shape)
    ensures RotateCW(RotateCCW(m)) == m
  {
    ShapeExt(RotateCW(RotateCCW(m)), m);
  }

  /** Two clockwise turns are a half turn: square (r, c) goes to (R-1-r, C-1-c). */
  lemma {:induction false} HalfTurn(m: Shape)
    ensures RotateCW(RotateCW(m)).rows == m.rows && RotateCW(RotateCW(m)).cols == m.cols
    ensures forall r, c :: 0 <= r < m.rows && 0 <= c < m.cols ==>
      RotateCW(RotateCW(m)).bits[r][c] == m.bits[m.rows - 1 - r][m.cols - 1 - c]
  {
  }

  /** Four clockwise turns give back the original shape. */
  lemma {:induction false} FourTurns(m: Shape)
    ensures RotateCW(RotateCW(RotateCW(RotateCW(m)))) == m
  {
    var h := RotateCW(RotateCW(m));
    HalfTurn(m);
    HalfTurn(h);
    ShapeExt(RotateCW(RotateCW(h)), m);
  }

  /** An injective map keeps the size of a finite set of squares. */
  lemma {:induction false} InjectiveImageSize(s: set<(int, int)>, f: ((int, int)) -> (int, int))
    requires forall a, b :: a in s && b in s && f(a) == f(b) ==> a == b
    ensures |set p | p in s :: f(p)| == |s|
    decreases |s|
  {
    if s != {} {
      var a :| a in s;
      var rest := s - {a};
      InjectiveImageSize(rest, f);
      var img := set p | p in s :: f(p);
      var imgRest := set p | p in rest :: f(p);
      assert img == imgRest + {f(a)};
      assert f(a) !in imgRest;
    }
  }

  /** The squares of a clockwise turn are the turned squares of the original. */
  lemma {:induction false} CellsOfCW(m: Shape)
    ensures Cells(RotateCW(m)) == set p | p in Cells(m) :: (p.1, m.rows - 1 - p.0)
  {
    var q := RotateCW(m);
    var img := set p | p in Cells(m) :: (p.1, m.rows - 1 - p.0);
    forall p | p in Cells(q)
      ensures p in img
    {
      var src := (m.rows - 1 - p.1, p.0);
      assert src in Cells(m);
    }
  }

  /** The squares of a counter-clockwise turn are the turned squares of the original. */
  lemma {:induction false} CellsOfCCW(m: Shape)
    ensures Cells(RotateCCW(m)) == set p | p in Cells(m) :: (m.cols - 1 - p.1, p.0)
  {
    var q := RotateCCW(m);
    var img := set p | p in Cells(m) :: (m.cols - 1 - p.1, p.0);
    forall p | p in Cells(q)
      ensures p in img
    {
      var src := (p.1, m.cols - 1 - p.0);
      assert src in Cells(m);
    }
  }

  /** Rotating in either direction keeps the number of occupied squares. */
  lemma {:induction false} RotatePreservesCount(m: Shape, direction: string)
    ensures |Cells(Rotate(m, direction))| == |Cells(m)|
  {
    if direction == "clockwise" {
      var f := (p: (int, int)) => (p.1, m.rows - 1 - p.0);
      CellsOfCW(m);
      InjectiveImageSize(Cells(m), f);
      assert Cells(RotateCW(m)) == set p | p in Cells(m) :: f(p);
    } else {
      var f := (p: (int, int)) => (m.cols - 1 - p.1, p.0);
      CellsOfCCW(m);
      InjectiveImageSize(Cells(m), f);
      assert Cells(RotateCCW(m)) == set p | p in Cells(m) :: f(p);
    }
  }
}

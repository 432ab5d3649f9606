/** The piece catalogue and the clockwise rotation of a piece matrix. */
module Shapes {
  import opened Board

  /** The six spawnable shapes, in catalogue order: T, I, O, S, Z and J. */
  const Pieces: seq<Grid> := [
    [[0, 1, 0],
     [1, 1, 1]],
    [[1, 1, 1, 1]],
    [[1, 1],
     [1, 1]],
    [[0, 1, 1],
     [1, 1, 0]],
    [[1, 1, 0],
     [0, 1, 1]],
    [[1, 0, 0],
     [1, 1, 1]]
  ]

  /** At least one row, and every row as long as the first. */
  predicate Rectangular(m: Grid) {
    |m| > 0 && forall i :: 0 <= i < |m| ==> |m[i]| == |m[0]|
  }

  predicate Binary(m: Grid) {
    forall i, j :: 0 <= i < |m| && 0 <= j < |m[i]| ==> m[i][j] == 0 || m[i][j] == 1
  }

  /** Some cell of the matrix is positive, so the piece occupies something. */
  predicate HasCell(m: Grid) {
    exists i, j :: 0 <= i < |m| && 0 <= j < |m[i]| && m[i][j] > 0
  }

  /** What every piece matrix in play looks like. */
  predicate IsShape(m: Grid) {
    Rectangular(m) && Binary(m) && HasCell(m)
  }

  /** Every catalogue entry is a shape at most 2 rows high and 4 columns wide. */
  lemma PieceIsShape(k: nat)
    requires k < |Pieces|
    ensures IsShape(Pieces[k])
    ensures |Pieces[k]| <= 2 && |Pieces[k][0]| <= 4
  {
    var m := Pieces[k];
    assert m[|m| - 1][1] == 1;
  }

  /** The matrix turned a quarter clockwise: its row `y` is column `y` of `m`
      read from the bottom row up. */
  function Rotation(m: Grid): Grid
    requires Rectangular(m)
  {
    seq(|m[0]|, y requires 0 <= y < |m[0]| =>
      seq(|m|, x requires 0 <= x < |m| => m[|m| - 1 - x][y]))
  }

  /** Builds the rotated matrix row by row, each row by walking the old rows
      from the last to the first. */
  method BuildRotation(m: Grid) returns (rotated: Grid)
    requires Rectangular(m)
    ensures rotated == Rotation(m)
  {
    rotated := [];
    var y := 0;
    while y < |m[0]|
      invariant 0 <= y <= |m[0]|
      invariant rotated == Rotation(m)[..y]
    {
      var row: Row := [];
      var x := |m| - 1;
      while x >= 0
        invariant -1 <= x < |m|
        invariant |row| == |m| - 1 - x
        invariant forall i :: 0 <= i < |row| ==> row[i] == m[|m| - 1 - i][y]
      {
        row := row + [m[x][y]];
        x := x - 1;
      }
      assert row == Rotation(m)[y];
      rotated := rotated + [row];
      y := y + 1;
    }
  }

  /** Rotation swaps the dimensions and keeps a shape a shape. */
  lemma RotationIsShape(m: Grid)
    requires IsShape(m)
    ensures IsShape(Rotation(m))
    ensures |Rotation(m)| == |m[0]| && |Rotation(m)[0]| == |m|
  {
    var i, j :| 0 <= i < |m| && 0 <= j < |m[i]| && m[i][j] > 0;
    var r := Rotation(m);
    assert r[j][|m| - 1 - i] == m[i][j];
  }

  /** Two quarter turns are a half turn. */
  lemma HalfTurn(m: Grid)
    requires Rectangular(m) && |m[0]| > 0
    ensures Rectangular(Rotation(m))
    ensures var h := Rotation(Rotation(m));
      |h| == |m| && forall i, j :: 0 <= i < |m| && 0 <= j < |m[0]| ==>
        |h[i]| == |m[0]| && h[i][j] == m[|m| - 1 - i][|m[0]| - 1 - j]
  {
  }

  /** Four quarter turns bring a matrix back to itself. */
  lemma FourRotations(m: Grid)
    requires Rectangular(m) && |m[0]| > 0
    ensures Rectangular(Rotation(m)) && Rectangular(Rotation(Rotation(m)))
    ensures Rectangular(Rotation(Rotation(Rotation(m))))
    ensures Rotation(Rotation(Rotation(Rotation(m)))) == m
  {
    HalfTurn(m);
    var h := Rotation(Rotation(m));
    assert Rectangular(h) && |h[0]| > 0;
    HalfTurn(h);
    var f := Rotation(Rotation(h));
    assert |f| == |m|;
    forall i | 0 <= i < |m| ensures f[i] == m[i] {
      assert |f[i]| == |m[i]|;
    }
  }

  /** The turn is clockwise: the upright T points right and the flat I stands up. */
  lemma RotationIsClockwise()
    ensures Rotation(Pieces[0]) == [[1, 0], [1, 1], [1, 0]]
    ensures Rotation(Pieces[1]) == [[1], [1], [1], [1]]
    ensures Rotation(Pieces[2]) == Pieces[2]
  {
    var t, i, o := Rotation(Pieces[0]), Rotation(Pieces[1]), Rotation(Pieces[2]);
    assert t[0] == [1, 0] && t[1] == [1, 1] && t[2] == [1, 0];
    assert i[0] == [1] && i[1] == [1] && i[2] == [1] && i[3] == [1];
    assert o[0] == [1, 1] && o[1] == [1, 1];
  }
}

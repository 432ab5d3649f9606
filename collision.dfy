/** Whether a piece matrix placed at a position clashes with the board, and
    what the board looks like once the piece is merged into it. */
module Collision {
  import opened Board
  import opened Shapes

  /** The result of reading `board[r][c]`: a cell value, or `undefined` when row
      `r` or column `c` does not exist. */
  datatype Read = Undefined | Value(v: int)

  function Lookup(b: Grid, r: int, c: int): Read {
    if 0 <= r < |b| && 0 <= c < |b[r]| then Value(b[r][c]) else Undefined
  }

  /** A cell a piece cell may not land on: whatever the read yields, unless it
      is the number 0 (`undefined !== 0` holds, so every cell off the grid blocks). */
  predicate Blocked(b: Grid, r: int, c: int) {
    Lookup(b, r, c) != Value(0)
  }

  predicate OnBoard(b: Grid, r: int, c: int) {
    0 <= r < |b| && 0 <= c < |b[r]|
  }

  /** Blocking means: above the top, below the floor, left or right of the row,
      or a non-zero cell. */
  lemma BlockedIff(b: Grid, r: int, c: int)
    ensures Blocked(b, r, c) <==> !OnBoard(b, r, c) || b[r][c] != 0
  {
  }

  /** Some non-zero cell of `m`, with its top-left corner at column `x`, row `y`,
      lands on a blocked cell. */
  predicate Collides(b: Grid, m: Grid, x: int, y: int) {
    exists i, j :: 0 <= i < |m| && 0 <= j < |m[i]| && m[i][j] != 0 && Blocked(b, y + i, x + j)
  }

  /** Every non-zero cell of `m` lands on the board. */
  predicate Placed(b: Grid, m: Grid, x: int, y: int) {
    forall i, j :: 0 <= i < |m| && 0 <= j < |m[i]| && m[i][j] != 0 ==> OnBoard(b, y + i, x + j)
  }

  /** Scans the matrix row by row and stops at the first non-zero cell that
      lands on a blocked board cell. Reads only. */
  method Collide(b: Grid, m: Grid, x: int, y: int) returns (hit: bool)
    ensures hit <==> Collides(b, m, x, y)
  {
    var i := 0;
    while i < |m|
      invariant 0 <= i <= |m|
      invariant forall i', j' :: 0 <= i' < i && 0 <= j' < |m[i']| && m[i'][j'] != 0 ==> !Blocked(b, y + i', x + j')
    {
      var j := 0;
      while j < |m[i]|
        invariant 0 <= j <= |m[i]|
        invariant forall j' :: 0 <= j' < j && m[i][j'] != 0 ==> !Blocked(b, y + i, x + j')
      {
        if m[i][j] != 0 && Lookup(b, y + i, x + j) != Value(0) {
          return true;
        }
        j := j + 1;
      }
      i := i + 1;
    }
    return false;
  }

  /** A piece that collides with nothing lies wholly on the board. */
  lemma FreeIsPlaced(b: Grid, m: Grid, x: int, y: int)
    requires !Collides(b, m, x, y)
    ensures Placed(b, m, x, y)
  {
    forall i, j | 0 <= i < |m| && 0 <= j < |m[i]| && m[i][j] != 0
      ensures OnBoard(b, y + i, x + j)
    {
      assert !Blocked(b, y + i, x + j);
    }
  }

  /** A piece with a positive cell collides at any row at or past the floor. */
  lemma FloorBlocks(b: Grid, m: Grid, x: int, y: int)
    requires HasCell(m)
    ensures y >= |b| ==> Collides(b, m, x, y)
  {
    var i, j :| 0 <= i < |m| && 0 <= j < |m[i]| && m[i][j] > 0;
    assert y >= |b| ==> Blocked(b, y + i, x + j);
  }

  /** Board cell (r, c) lies under a positive cell of `m` placed at (x, y). */
  predicate Covers(m: Grid, x: int, y: int, r: int, c: int) {
    0 <= r - y < |m| && 0 <= c - x < |m[r - y]| && m[r - y][c - x] > 0
  }

  /** The board once the piece is merged in: each cell under a positive piece
      cell takes that cell's value. */
  function Merged(b: Grid, m: Grid, x: int, y: int): Grid {
    seq(|b|, r requires 0 <= r < |b| =>
      seq(|b[r]|, c requires 0 <= c < |b[r]| =>
        if Covers(m, x, y, r, c) then m[r - y][c - x] else b[r][c]))
  }

  /** Merging changes no dimension and no cell outside the piece's positive cells,
      and each cell under one of them holds its value. */
  lemma MergedCells(b: Grid, m: Grid, x: int, y: int)
    requires Placed(b, m, x, y)
    ensures |Merged(b, m, x, y)| == |b|
    ensures forall r :: 0 <= r < |b| ==> |Merged(b, m, x, y)[r]| == |b[r]|
    ensures forall i, j :: 0 <= i < |m| && 0 <= j < |m[i]| && m[i][j] > 0 ==>
      Merged(b, m, x, y)[y + i][x + j] == m[i][j]
    ensures forall r, c :: OnBoard(b, r, c) && !Covers(m, x, y, r, c) ==>
      Merged(b, m, x, y)[r][c] == b[r][c]
  {
    var g := Merged(b, m, x, y);
    forall i, j | 0 <= i < |m| && 0 <= j < |m[i]| && m[i][j] > 0
      ensures g[y + i][x + j] == m[i][j]
    {
      assert OnBoard(b, y + i, x + j);
      assert Covers(m, x, y, y + i, x + j);
    }
  }

  /** Right after the merge the same piece at the same place collides with itself. */
  lemma MergedCollides(b: Grid, m: Grid, x: int, y: int)
    requires HasCell(m)
    ensures Collides(Merged(b, m, x, y), m, x, y)
  {
    var i, j :| 0 <= i < |m| && 0 <= j < |m[i]| && m[i][j] > 0;
    var g := Merged(b, m, x, y);
    if OnBoard(b, y + i, x + j) {
      assert Covers(m, x, y, y + i, x + j);
      assert g[y + i][x + j] == m[i][j];
    }
    assert Blocked(g, y + i, x + j);
  }

  /** Merging keeps the board's dimensions. */
  lemma MergedSize(b: Grid, m: Grid, x: int, y: int, h: nat, w: nat)
    requires Sized(b, h, w)
    ensures Sized(Merged(b, m, x, y), h, w)
  {
  }
}

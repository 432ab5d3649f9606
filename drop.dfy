/** Where a hard drop locks a piece: as written, the loop that moves the piece
    down until it collides and then backs up one row; and the corrected drop,
    which steps down while the row below is free. */
module Drop {
  import opened Board
  import opened Shapes
  import opened Collision

  /** The first row at or below `y` where the piece collides; every row from
      `y` up to it is free. */
  function FirstHit(b: Grid, m: Grid, x: int, y: int): (h: int)
    requires HasCell(m)
    ensures y <= h && Collides(b, m, x, h)
    ensures forall y' :: y <= y' < h ==> !Collides(b, m, x, y')
    decreases |b| - y
  {
    if Collides(b, m, x, y) then y
    else
      FloorBlocks(b, m, x, y);
      FirstHit(b, m, x, y + 1)
  }

  /** The first collision row is determined by the two facts that define it. */
  lemma FirstHitUnique(b: Grid, m: Grid, x: int, y: int, h: int)
    requires HasCell(m)
    requires y <= h && Collides(b, m, x, h)
    requires forall y' :: y <= y' < h ==> !Collides(b, m, x, y')
    ensures FirstHit(b, m, x, y) == h
  {
  }

  /** The row the hard-drop handler locks at as written: one above the first
      collision row, even when that collision row is the starting row. */
  function DropRowAsWritten(b: Grid, m: Grid, x: int, y: int): (r: int)
    requires HasCell(m)
    ensures y - 1 <= r && Collides(b, m, x, r + 1)
    ensures forall y' :: y <= y' <= r ==> !Collides(b, m, x, y')
  {
    FirstHit(b, m, x, y) - 1
  }

  /** The row a hard drop locks at: the piece steps down while the row below
      is free, as repeated soft drops would move it, and locks there. */
  function DropRow(b: Grid, m: Grid, x: int, y: int): int
    requires HasCell(m)
  {
    FirstHit(b, m, x, y + 1) - 1
  }

  /** The drop locks one row above the first colliding row below the start,
      every row between being free; from a free position every row from the
      start on is free. A piece on the board stays on it. */
  lemma DropRowLands(b: Grid, m: Grid, x: int, y: int)
    requires HasCell(m)
    ensures var r := DropRow(b, m, x, y);
      y <= r && Collides(b, m, x, r + 1) &&
      forall y' :: y < y' <= r ==> !Collides(b, m, x, y')
    ensures !Collides(b, m, x, y) ==>
      var r := DropRow(b, m, x, y);
      !Collides(b, m, x, r) && forall y' :: y <= y' <= r ==> !Collides(b, m, x, y')
    ensures Placed(b, m, x, y) ==> Placed(b, m, x, DropRow(b, m, x, y))
  {
    var r := DropRow(b, m, x, y);
    if r > y {
      assert !Collides(b, m, x, r);
      FreeIsPlaced(b, m, x, r);
    }
  }

  /** A hard drop is the soft drop repeated: it stays when the row below
      collides and otherwise continues from that row. */
  lemma DropRowIsRepeatedSoftDrop(b: Grid, m: Grid, x: int, y: int)
    requires HasCell(m)
    ensures DropRow(b, m, x, y) ==
      if Collides(b, m, x, y + 1) then y else DropRow(b, m, x, y + 1)
  {
    if !Collides(b, m, x, y + 1) {
      FloorBlocks(b, m, x, y + 1);
      assert FirstHit(b, m, x, y + 1) == FirstHit(b, m, x, y + 2);
    }
  }

  /** From a free position the two agree: the correction changes nothing there. */
  lemma DropRowsAgreeWhenFree(b: Grid, m: Grid, x: int, y: int)
    requires HasCell(m) && !Collides(b, m, x, y)
    ensures DropRowAsWritten(b, m, x, y) == DropRow(b, m, x, y)
  {
  }

  /** A 30 by 14 board whose top row is empty and whose second row holds one
      cell, in column 0: what a lock can leave behind without ending the game. */
  function OverlapBoard(): Grid {
    Blank(1, BoardWidth) + [[1] + Zeros(BoardWidth - 1)] + Blank(BoardHeight - 2, BoardWidth)
  }

  /** The T piece spawned at column 0 over that board already collides; the hard
      drop as written then backs it up to row -1, where its top cell has no board
      row to be written to. */
  lemma AsWrittenDropLeavesBoard()
    ensures var b, t := OverlapBoard(), Pieces[0];
      Sized(b, BoardHeight, BoardWidth) && !TopRowFilled(b) &&
      Placed(b, t, 0, 0) && Collides(b, t, 0, 0) &&
      DropRowAsWritten(b, t, 0, 0) == -1 && !Placed(b, t, 0, -1)
  {
    var b, t := OverlapBoard(), Pieces[0];
    PieceIsShape(0);
    assert b[1][0] == 1;
    assert t[1][0] != 0 && Blocked(b, 0 + 1, 0 + 0);
    assert Collides(b, t, 0, 0);
    assert t[0][1] != 0 && !OnBoard(b, -1 + 0, 0 + 1);
    forall i, j | 0 <= i < |t| && 0 <= j < |t[i]| && t[i][j] != 0
      ensures OnBoard(b, 0 + i, 0 + j)
    {
    }
  }

  /** The corrected drop takes that T down to row 28, where its lower row rests
      on the last board row. */
  lemma OverlapBoardDrop()
    ensures HasCell(Pieces[0])
    ensures DropRow(OverlapBoard(), Pieces[0], 0, 0) == 28
  {
    var b, t := OverlapBoard(), Pieces[0];
    PieceIsShape(0);
    OverlapBoardFreeBelow();
    assert t[1][0] != 0 && Blocked(b, 29 + 1, 0 + 0);
    FirstHitUnique(b, t, 0, 1, 29);
  }

  /** Below its start the T finds every row of that board free down to row 28. */
  lemma OverlapBoardFreeBelow()
    ensures forall y' :: 1 <= y' <= 28 ==> !Collides(OverlapBoard(), Pieces[0], 0, y')
  {
    var b, t := OverlapBoard(), Pieces[0];
    forall y' | 1 <= y' <= 28 ensures !Collides(b, t, 0, y') {
      forall i, j | 0 <= i < |t| && 0 <= j < |t[i]| && t[i][j] != 0 ensures !Blocked(b, y' + i, 0 + j) {
        assert i == 0 ==> j == 1;
        assert b[y' + i][j] == 0;
      }
    }
  }

  /** On the empty board the O piece of the initial state, at column 5 and row 5,
      drops to row 28: its lower row rests on row 29, the last one. */
  lemma EmptyBoardDrop()
    ensures HasCell(Pieces[2])
    ensures DropRow(Blank(BoardHeight, BoardWidth), Pieces[2], 5, 5) == 28
  {
    var b, o := Blank(BoardHeight, BoardWidth), Pieces[2];
    PieceIsShape(2);
    forall y' | 5 <= y' <= 28 ensures !Collides(b, o, 5, y') {
      forall i, j | 0 <= i < |o| && 0 <= j < |o[i]| && o[i][j] != 0 ensures !Blocked(b, y' + i, 5 + j) {
        assert b[y' + i][5 + j] == 0;
      }
    }
    assert o[1][0] != 0 && Blocked(b, 29 + 1, 5 + 0);
    FirstHitUnique(b, o, 5, 5, 29);
  }
}

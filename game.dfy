/** The game-state engine: the board, the falling piece, the score and the
    gravity timer, with the operations the key handlers, the frame callback and
    the start button run on them. */
module Game {
  import opened Board
  import opened Shapes
  import opened Collision
  import opened Drop

  /** Gravity moves the piece once the accumulated time exceeds this many milliseconds. */
  const DropInterval: int := 1000

  /** What a spawn draws at random: a column in the left half of the board
      (`floor(r * 14 / 2)` for `r` in [0, 1)) and an index into the catalogue. */
  predicate SpawnArgs(col: int, shape: int) {
    0 <= col < BoardWidth / 2 && 0 <= shape < |Pieces|
  }

  /** A freshly spawned piece lies on the board, whatever the board holds. */
  lemma SpawnPlaced(b: Grid, col: int, shape: int)
    requires Sized(b, BoardHeight, BoardWidth) && SpawnArgs(col, shape)
    ensures Placed(b, Pieces[shape], col, 0)
  {
    PieceIsShape(shape);
  }

  /** A piece on the board stays on it when only the cell values change. */
  lemma PlacedOnSameSize(b: Grid, b': Grid, m: Grid, x: int, y: int)
    requires Sized(b, BoardHeight, BoardWidth) && Sized(b', BoardHeight, BoardWidth)
    requires Placed(b, m, x, y)
    ensures Placed(b', m, x, y)
  {
    forall i, j | 0 <= i < |m| && 0 <= j < |m[i]| && m[i][j] != 0
      ensures OnBoard(b', y + i, x + j)
    {
      assert OnBoard(b, y + i, x + j);
    }
  }

  /** The board after the lock's merge and its game-over check: emptied when the
      merged board has a positive cell in its top row. */
  function Settled(b: Grid, m: Grid, x: int, y: int): Grid
    requires |b| > 0
  {
    var merged := Merged(b, m, x, y);
    if TopRowFilled(merged) then Zeroed(merged) else merged
  }

  /** A lock that ends the game leaves an empty board for the sweep, which then
      clears nothing. */
  lemma GameOverSweepsNothing(b: Grid, m: Grid, x: int, y: int)
    requires Sized(b, BoardHeight, BoardWidth)
    requires TopRowFilled(Merged(b, m, x, y))
    ensures Settled(b, m, x, y) == Blank(BoardHeight, BoardWidth)
    ensures Swept(Settled(b, m, x, y), BoardWidth) == Blank(BoardHeight, BoardWidth)
    ensures Cleared(Settled(b, m, x, y)) == 0
  {
    MergedSize(b, m, x, y, BoardHeight, BoardWidth);
    ZeroedIsBlank(Merged(b, m, x, y), BoardHeight, BoardWidth);
    BlankNoFullRow(BoardHeight, BoardWidth);
  }

  /** The key names the handler reacts to; every other key is ignored. */
  datatype Action = RotateKey | LeftKey | RightKey | DownKey | DropKey | Ignored

  function ActionOf(key: string): Action {
    if key == "ArrowUp" then RotateKey
    else if key == "ArrowLeft" then LeftKey
    else if key == "ArrowRight" then RightKey
    else if key == "ArrowDown" then DownKey
    else if key == " " then DropKey
    else Ignored
  }

  class GameState {
    var board: Grid
    var px: int
    var py: int
    var matrix: Grid
    var score: int
    var lastTime: int
    var dropCounter: int

    /** The board keeps its 30 by 14 cells, the piece is a shape whose cells all
        lie on the board, and the score is never negative. */
    ghost predicate Valid()
      reads this
    {
      Sized(board, BoardHeight, BoardWidth) && IsShape(matrix) &&
      Placed(board, matrix, px, py) && score >= 0
    }

    /** The state is what locking piece `m` at (x, y) on board `b` with score `s`
        leaves when the spawn draws `col` and `shape`: merge, respawn, game-over
        check, then the sweep and its score. */
    ghost predicate LockedFrom(b: Grid, m: Grid, x: int, y: int, s: int, col: int, shape: int)
      reads this
      requires |b| > 0 && SpawnArgs(col, shape)
    {
      var settled := Settled(b, m, x, y);
      board == Swept(settled, BoardWidth) && score == s + 10 * Cleared(settled) &&
      px == col && py == 0 && matrix == Pieces[shape]
    }

    /** The state at program start: an empty board and the O piece at column 5, row 5. */
    constructor ()
      ensures Valid()
      ensures board == Blank(BoardHeight, BoardWidth)
      ensures px == 5 && py == 5 && matrix == Pieces[2]
      ensures score == 0 && lastTime == 0 && dropCounter == 0
    {
      board := Blank(BoardHeight, BoardWidth);
      px, py := 5, 5;
      matrix := [[1, 1], [1, 1]];
      score, lastTime, dropCounter := 0, 0, 0;
      PieceIsShape(2);
    }

    /** The start button's reset: every row filled with 0 and the score set to 0. */
    method Reset()
      requires Valid()
      modifies this`board, this`score
      ensures Valid()
      ensures board == Blank(BoardHeight, BoardWidth) && score == 0
    {
      ZeroedIsBlank(board, BoardHeight, BoardWidth);
      PlacedOnSameSize(board, Zeroed(board), matrix, px, py);
      board := Zeroed(board);
      score := 0;
    }

    /** The start button: reset, then the first frame, at time 0. */
    method Start(col: int, shape: int)
      requires Valid() && SpawnArgs(col, shape)
      modifies this
      ensures Valid() && lastTime == 0
      ensures old(dropCounter) - old(lastTime) <= DropInterval ==>
        board == Blank(BoardHeight, BoardWidth) && score == 0 &&
        px == old(px) && py == old(py) && matrix == old(matrix) &&
        dropCounter == old(dropCounter) - old(lastTime)
    {
      Reset();
      var stepped, locked := Update(0, col, shape);
    }

    /** Writes each positive piece cell into the board cell under it. */
    method Merge()
      requires Valid()
      modifies this`board
      ensures Valid()
      ensures board == Merged(old(board), matrix, px, py)
    {
      ghost var ob := board;
      var i := 0;
      while i < |matrix|
        invariant 0 <= i <= |matrix|
        invariant Sized(board, BoardHeight, BoardWidth)
        invariant forall r, c :: OnBoard(board, r, c) ==>
          board[r][c] == MergedSoFar(ob, matrix, px, py, r, c, i, 0)
      {
        var j := 0;
        while j < |matrix[i]|
          invariant 0 <= j <= |matrix[i]|
          invariant Sized(board, BoardHeight, BoardWidth)
          invariant forall r, c :: OnBoard(board, r, c) ==>
            board[r][c] == MergedSoFar(ob, matrix, px, py, r, c, i, j)
        {
          if matrix[i][j] > 0 {
            assert OnBoard(ob, py + i, px + j);
            board := board[py + i := board[py + i][px + j := matrix[i][j]]];
          }
          j := j + 1;
        }
        i := i + 1;
      }
      ghost var g := Merged(ob, matrix, px, py);
      forall r | 0 <= r < |board| ensures board[r] == g[r] {
        assert |board[r]| == |g[r]|;
      }
      PlacedOnSameSize(ob, board, matrix, px, py);
    }

    /** Cell (r, c) of `b` once the piece cells before row `i`, column `j` (in the
        order the merge visits them) have been written. */
    ghost function MergedSoFar(b: Grid, m: Grid, x: int, y: int, r: int, c: int, i: int, j: int): int
      requires OnBoard(b, r, c)
    {
      if Covers(m, x, y, r, c) && (r - y < i || (r - y == i && c - x < j))
      then m[r - y][c - x] else b[r][c]
    }

    /** Puts a new piece at row 0: column and shape are the two random draws. */
    method Spawn(col: int, shape: int)
      requires SpawnArgs(col, shape)
      modifies this`px, this`py, this`matrix
      ensures px == col && py == 0 && matrix == Pieces[shape]
      ensures Sized(board, BoardHeight, BoardWidth) && score >= 0 ==> Valid()
    {
      py := 0;
      px := col;
      matrix := Pieces[shape];
      if Sized(board, BoardHeight, BoardWidth) {
        SpawnPlaced(board, col, shape);
      }
      PieceIsShape(shape);
    }

    /** Merge, respawn and the game-over check. When the top row then holds a
        positive cell the game is over: it is reported and every cell becomes 0,
        while the score stays. */
    method Solidify(col: int, shape: int) returns (over: bool)
      requires Valid() && SpawnArgs(col, shape)
      modifies this`board, this`px, this`py, this`matrix
      ensures Valid()
      ensures over == TopRowFilled(Merged(old(board), old(matrix), old(px), old(py)))
      ensures board == Settled(old(board), old(matrix), old(px), old(py))
      ensures px == col && py == 0 && matrix == Pieces[shape]
    {
      Merge();
      Spawn(col, shape);
      over := TopRowFilled(board);
      if over {
        ZeroedIsBlank(board, BoardHeight, BoardWidth);
        board := Zeroed(board);
      }
      SpawnPlaced(board, col, shape);
      PieceIsShape(shape);
    }

    /** The row sweep: from the bottom row up to row 1, each full row is cut out,
        zero-filled and put back on top, and the same index is examined again;
        each clear adds 10 to the score and doubles the returned count. */
    method RemoveRows() returns (rowCount: int)
      requires Valid()
      modifies this`board, this`score
      ensures Valid()
      ensures board == Swept(old(board), BoardWidth)
      ensures score == old(score) + 10 * Cleared(old(board))
      ensures rowCount == Pow2(Cleared(old(board)))
    {
      ghost var ob := board;
      ghost var j: nat := |ob|;   // ob[..j] not yet examined
      ghost var k: nat := 0;    // rows cleared so far
      SweepStart(ob, BoardWidth);
      rowCount := 1;
      var y := |board| - 1;
      while y > 0
        invariant SweepState(ob, board, y, j, k, BoardWidth)
        invariant rowCount == Pow2(k) && score == old(score) + 10 * k
        decreases y + j
      {
        var full := IsFull(board[y]);
        if !full {
          // row y holds a 0: move on to the row above
          SweepSkipStep(ob, board, y, j, k, BoardWidth);
          j := if j > 0 then j - 1 else 0;
          y := y - 1;
        } else {
          SweepClearStep(ob, board, y, j, k, BoardWidth);
          board := ClearRow(board, y, |board[y]|);
          j, k := j - 1, k + 1;
          rowCount := rowCount * 2;
          score := score + 10;
        }
      }
      SweepEnd(ob, board, j, k, BoardWidth);
      SweptSize(ob, BoardHeight, BoardWidth);
      PlacedOnSameSize(ob, board, matrix, px, py);
    }

    /** A lock as the handlers run it: `solidifyPiece` then the row sweep. */
    method Lock(col: int, shape: int) returns (over: bool, rowCount: int)
      requires Valid() && SpawnArgs(col, shape)
      modifies this`board, this`px, this`py, this`matrix, this`score
      ensures Valid()
      ensures LockedFrom(old(board), old(matrix), old(px), old(py), old(score), col, shape)
      ensures over == TopRowFilled(Merged(old(board), old(matrix), old(px), old(py)))
      ensures over ==> board == Blank(BoardHeight, BoardWidth) && score == old(score)
      ensures rowCount == Pow2(Cleared(Settled(old(board), old(matrix), old(px), old(py))))
    {
      if TopRowFilled(Merged(board, matrix, px, py)) {
        GameOverSweepsNothing(board, matrix, px, py);
      }
      over := Solidify(col, shape);
      rowCount := RemoveRows();
    }

    /** Left or right by one column, undone if the piece then collides. */
    method Shift(dx: int)
      requires Valid() && (dx == -1 || dx == 1)
      modifies this`px
      ensures Valid()
      ensures px == if Collides(board, matrix, old(px) + dx, py) then old(px) else old(px) + dx
      ensures !old(Collides(board, matrix, px, py)) ==> !Collides(board, matrix, px, py)
    {
      px := px + dx;
      var hit := Collide(board, matrix, px, py);
      if hit {
        px := px - dx;
      } else {
        FreeIsPlaced(board, matrix, px, py);
      }
    }

    /** A quarter turn clockwise, thrown away if the turned piece collides. */
    method Rotate()
      requires Valid()
      modifies this`matrix
      ensures Valid()
      ensures matrix == if Collides(board, Rotation(old(matrix)), px, py)
        then old(matrix) else Rotation(old(matrix))
      ensures !old(Collides(board, matrix, px, py)) ==> !Collides(board, matrix, px, py)
    {
      var rotated := BuildRotation(matrix);
      RotationIsShape(matrix);
      var previous := matrix;
      matrix := rotated;
      var hit := Collide(board, matrix, px, py);
      if hit {
        matrix := previous;
      } else {
        FreeIsPlaced(board, matrix, px, py);
      }
    }

    /** One row down; if that row collides, the piece stays and locks. */
    method SoftDrop(col: int, shape: int) returns (locked: bool)
      requires Valid() && SpawnArgs(col, shape)
      modifies this`board, this`px, this`py, this`matrix, this`score
      ensures Valid() && score >= old(score)
      ensures locked == Collides(old(board), old(matrix), old(px), old(py) + 1)
      ensures !locked ==> (py == old(py) + 1 && !Collides(board, matrix, px, py) &&
        board == old(board) && px == old(px) && matrix == old(matrix) && score == old(score))
      ensures locked ==> LockedFrom(old(board), old(matrix), old(px), old(py), old(score), col, shape)
    {
      locked := Collide(board, matrix, px, py + 1);
      if locked {
        var over, rowCount := Lock(col, shape);
      } else {
        FreeIsPlaced(board, matrix, px, py + 1);
        py := py + 1;
      }
    }

    /** Down while the row below is free, then lock. */
    method HardDrop(col: int, shape: int)
      requires Valid() && SpawnArgs(col, shape)
      modifies this`board, this`px, this`py, this`matrix, this`score
      ensures Valid() && score >= old(score)
      ensures LockedFrom(old(board), old(matrix), old(px),
        DropRow(old(board), old(matrix), old(px), old(py)), old(score), col, shape)
    {
      var start := py;
      var hit := Collide(board, matrix, px, py + 1);
      FloorBlocks(board, matrix, px, py + 1);
      while !hit
        invariant board == old(board) && matrix == old(matrix) && px == old(px) && score == old(score)
        invariant start <= py && Placed(board, matrix, px, py)
        invariant hit == Collides(board, matrix, px, py + 1)
        invariant forall y' :: start < y' <= py ==> !Collides(board, matrix, px, y')
        invariant !hit ==> py + 1 < |board|
        decreases |board| - py
      {
        py := py + 1;
        FreeIsPlaced(board, matrix, px, py);
        hit := Collide(board, matrix, px, py + 1);
        FloorBlocks(board, matrix, px, py + 1);
      }
      FirstHitUnique(board, matrix, px, start + 1, py + 1);
      assert py == DropRow(board, matrix, px, start);
      var over, rowCount := Lock(col, shape);
    }

    /** The key handler: each recognised key runs one operation; the spawn draws
        are used only if that operation locks the piece. */
    method KeyDown(key: string, col: int, shape: int)
      requires Valid() && SpawnArgs(col, shape)
      modifies this`board, this`px, this`py, this`matrix, this`score
      ensures Valid() && score >= old(score)
      ensures ActionOf(key) == Ignored ==>
        board == old(board) && px == old(px) && py == old(py) && matrix == old(matrix) && score == old(score)
      ensures ActionOf(key) in {RotateKey, LeftKey, RightKey} ==>
        board == old(board) && py == old(py) && score == old(score) &&
        (!old(Collides(board, matrix, px, py)) ==> !Collides(board, matrix, px, py))
      ensures ActionOf(key) == RotateKey ==> (px == old(px) &&
        matrix == if Collides(old(board), Rotation(old(matrix)), old(px), old(py))
          then old(matrix) else Rotation(old(matrix)))
      ensures ActionOf(key) == LeftKey ==> (matrix == old(matrix) &&
        px == if Collides(old(board), old(matrix), old(px) - 1, old(py)) then old(px) else old(px) - 1)
      ensures ActionOf(key) == RightKey ==> (matrix == old(matrix) &&
        px == if Collides(old(board), old(matrix), old(px) + 1, old(py)) then old(px) else old(px) + 1)
      ensures ActionOf(key) == DownKey ==>
        (if Collides(old(board), old(matrix), old(px), old(py) + 1)
         then LockedFrom(old(board), old(matrix), old(px), old(py), old(score), col, shape)
         else (py == old(py) + 1 && board == old(board) && px == old(px) && matrix == old(matrix) &&
           score == old(score) && !Collides(board, matrix, px, py)))
      ensures ActionOf(key) == DropKey ==>
        LockedFrom(old(board), old(matrix), old(px),
          DropRow(old(board), old(matrix), old(px), old(py)), old(score), col, shape)
    {
      match ActionOf(key)
      case RotateKey => Rotate();
      case LeftKey => Shift(-1);
      case RightKey => Shift(1);
      case DownKey => var locked := SoftDrop(col, shape);
      case DropKey => HardDrop(col, shape);
      case Ignored =>
    }

    /** One frame: add the elapsed time to the drop counter; past the interval,
        take one gravity step (as the down key does) and reset the counter. */
    method Update(time: int, col: int, shape: int) returns (stepped: bool, locked: bool)
      requires Valid() && SpawnArgs(col, shape)
      modifies this
      ensures Valid() && score >= old(score)
      ensures lastTime == time
      ensures stepped == (old(dropCounter) + (time - old(lastTime)) > DropInterval)
      ensures !stepped ==> (dropCounter == old(dropCounter) + (time - old(lastTime)) &&
        board == old(board) && px == old(px) && py == old(py) && matrix == old(matrix) &&
        score == old(score))
      ensures stepped ==> (dropCounter == 0 &&
        locked == Collides(old(board), old(matrix), old(px), old(py) + 1))
      ensures stepped && !locked ==> (py == old(py) + 1 && !Collides(board, matrix, px, py) &&
        board == old(board) && px == old(px) && matrix == old(matrix) && score == old(score))
      ensures stepped && locked ==>
        LockedFrom(old(board), old(matrix), old(px), old(py), old(score), col, shape)
    {
      var deltaTime := time - lastTime;
      lastTime := time;
      dropCounter := dropCounter + deltaTime;
      stepped := dropCounter > DropInterval;
      locked := false;
      if stepped {
        locked := SoftDrop(col, shape);
        dropCounter := 0;
      }
    }
  }
}

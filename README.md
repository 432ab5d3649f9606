# Falling-block puzzle engine, modelled in Dafny

This project models the game-state engine of a small browser falling-block puzzle. The engine's
state is a 30 × 14 board of integer cells (0 is empty), one falling piece (an integer matrix and a
column/row position), a score and a gravity timer. The operations modelled are:

- the collision test;
- the lock: merge the piece into the board, respawn a random piece at row 0, and check for game over;
- the row sweep that clears full rows and scores them;
- the clockwise rotation;
- the left, right, soft-drop and hard-drop key handlers;
- the gravity step of the frame callback;
- the board and score reset of the start button.

Modules, in dependency order:

- `Board` (`board.dfy`): the grid, full rows, and the sweep specified declaratively as `Swept`. If no
  row below the top is full, the board is unchanged. Otherwise every full row is removed and as many
  empty rows are put on top.
- `Shapes` (`shapes.dfy`): the six catalogue pieces and `Rotation`, the quarter turn.
- `Collision` (`collision.dfy`): `Collides`, with the source's read of a missing row or column
  modelled as `Undefined`. Also `Merged`, the board after the piece is written into it.
- `Drop` (`drop.dfy`): the row a hard drop locks at, both as written and corrected (see Findings).
- `Game` (`game.dfy`): the class `GameState`. Its fields are the source's mutable state: `board`, the
  piece position `px`/`py`, `matrix`, `score`, `lastTime` and `dropCounter`. Each handler is a method.

`GameState.Valid()` is required and kept by every handler and by `Merge`, `Solidify`, `RemoveRows` and `Lock`; `Spawn` re-establishes it whenever the board is 30 × 14 and the score non-negative. It says:

- the board is 30 × 14;
- the piece matrix is a rectangular 0/1 matrix with a filled cell;
- every filled cell of the piece lies on the board;
- the score is non-negative.

Points where the code behaves differently from what one might expect:

- A read below the floor is blocking, because `undefined !== 0` holds (src/main.ts:109).
- The sweep never tests index 0. But once a clear has shifted the old top row down, that row is
  examined like any other and is cleared if full. `Swept` states this.
- The doubling `rowCount` is returned by the sweep and ignored by every caller. Score rises by 10
  per cleared row.
- The initial O piece at row 5 comes to rest at row 28, not 29: it is two rows high
  (`Drop.EmptyBoardDrop`).

## Model

| member | source | states |
|---|---|---|
| `Collision.BlockedIff` | src/main.ts:109 | a board read blocks exactly when it is above the top, below the floor, left or right of the row, or a non-zero cell |
| `Collision.Collide` | src/main.ts:105-115 | the scan returns true exactly when some non-zero matrix cell lands on a blocked cell; it changes nothing |
| `Collision.FreeIsPlaced` | src/main.ts:105-115 | a piece that does not collide has every non-zero cell on the board |
| `Collision.FloorBlocks` | src/main.ts:109 | a piece with a filled cell collides at every row at or past the floor |
| `Collision.MergedCells` | src/main.ts:117-124 | the merge writes each positive piece cell's value under it and changes no other cell and no dimension |
| `Collision.MergedSize` | src/main.ts:117-124 | the merge keeps the board's height and width |
| `Collision.MergedCollides` | src/main.ts:117-124 | right after the merge, the same matrix at the same place collides |
| `Game.GameState.Merge` | src/main.ts:118-124 | the nested loop leaves exactly the merged board, and every piece cell still lies on it |
| `Game.GameState.Spawn` | src/main.ts:126-128 | the new piece is at row 0, at the drawn column, with the drawn catalogue shape; on a 30 × 14 board it lies wholly on the board |
| `Game.SpawnPlaced` | src/main.ts:126-128 | a spawned piece (column 0..6, shape at most 2 × 4) lies on the board whatever the board holds |
| `Game.GameState.Solidify` | src/main.ts:117-134 | merge, respawn, then game over exactly when the merged top row has a positive cell; the board is then all zero; the score is untouched |
| `Game.GameOverSweepsNothing` | src/main.ts:130-133 | after a game over the board is blank and the sweep that follows clears nothing |
| `Board.IsFull` | src/main.ts:140-144 | the inner scan finds a 0 exactly when the row is not full |
| `Board.Survivors` | src/main.ts:139-152 | the rows the sweep keeps are non-full rows of the input, never more of them |
| `Board.ClearRow` | src/main.ts:146-147 | one clear: empty row 0, old rows 0..y-1 at 1..y, rows below y in place |
| `Game.GameState.RemoveRows` | src/main.ts:136-155 | the bottom-up sweep leaves `Swept` of the old board, adds 10 per cleared row and returns 2 to the number cleared |
| `Board.SweptSize` | src/main.ts:136-155 | the sweep keeps the row count and every row's width |
| `Board.SweptLeavesNoFullRow` | src/main.ts:139-152 | after the sweep every row below the top holds a 0 |
| `Board.SweptIdleIff` | src/main.ts:139-154 | the sweep leaves the board unchanged, and clears nothing, exactly when no row below the top is full |
| `Board.SweptIdempotent` | src/main.ts:139-152 | a second sweep changes nothing |
| `Board.SweptOneRow` | src/main.ts:146-151 | with exactly one full row y ≥ 1 the sweep is one clear of row y and counts 1 |
| `Game.GameState.Lock` | src/main.ts:206-209 | lock = merge, respawn, game-over check, sweep; a game over leaves a blank board and the old score |
| `Shapes.PieceIsShape` | src/main.ts:9-31 | every catalogue piece is a rectangular 0/1 matrix with a filled cell, at most 2 rows and 4 columns |
| `Shapes.BuildRotation` | src/main.ts:162-172 | the row-by-row construction yields the clockwise rotation: row y is old column y read bottom-up |
| `Shapes.RotationIsShape` | src/main.ts:161-172 | the rotation swaps the dimensions and keeps a shape a shape |
| `Shapes.HalfTurn` | src/main.ts:161-172 | two rotations turn the matrix by half: cell (i, j) becomes old cell (h-1-i, w-1-j) |
| `Shapes.FourRotations` | src/main.ts:161-172 | four rotations of a rectangular matrix give it back |
| `Shapes.RotationIsClockwise` | src/main.ts:161-172 | the upright T turns to point right, the flat I stands up, the O is unchanged |
| `Game.GameState.Rotate` | src/main.ts:161-180 | the rotated matrix is kept unless it collides, in which case the old one stays; a piece free before is free after |
| `Game.GameState.Shift` | src/main.ts:191-202 | the column changes by exactly one, or not at all when the moved piece collides; a piece free before is free after |
| `Game.GameState.SoftDrop` | src/main.ts:203-210 | one row down, or, when that collides, lock at the old row; without a lock the piece is free |
| `Drop.FirstHit` | src/main.ts:212-214 | the hard-drop loop stops at the first colliding row at or below the start, every row before it being free |
| `Drop.FirstHitUnique` | src/main.ts:212-214 | that stopping row is the only row with those two properties |
| `Drop.DropRowAsWritten` | src/main.ts:211-216 | as written, the hard drop locks one row above the first colliding row, every row from the start to it being free, even when the start row itself collides |
| `Drop.DropRowLands` | src/main.ts:211-218 | the corrected drop locks one row above the first colliding row below the start, every row between being free; from a free position every row from the start on is free; a piece on the board stays on it |
| `Drop.DropRowIsRepeatedSoftDrop` | src/main.ts:203-216 | the corrected hard drop is the soft drop repeated: it stays when the row below collides and otherwise continues from that row |
| `Drop.DropRowsAgreeWhenFree` | src/main.ts:211-216 | from a free position the corrected drop row equals the as-written one |
| `Drop.AsWrittenDropLeavesBoard` | src/main.ts:211-217 | a T spawned onto an occupied second row collides in place; as written it is backed up to row -1, off the board |
| `Drop.OverlapBoardDrop` | src/main.ts:211-217 | on that same board the corrected drop takes the T down to row 28, onto the floor |
| `Drop.EmptyBoardDrop` | src/main.ts:211-216 | on the empty board the initial O of src/main.ts:44-50, at column 5, row 5, drops to row 28 |
| `Game.GameState.HardDrop` | src/main.ts:211-219 | the loop moves the piece down while the row below is free and locks it there, at `DropRow` of the old state |
| `Game.GameState.KeyDown` | src/main.ts:188-220 | arrow-up turns the piece clockwise unless the turned piece collides; arrow-left/right move it one column unless the moved piece collides, keeping its matrix; arrow-down moves the piece one row down when that row is free and otherwise locks it where it is; space hard-drops; other keys change nothing; the score never decreases |
| `Game.GameState.Update` | src/main.ts:56-72 | the elapsed time is added to the counter; past 1000 one soft-drop step is taken and the counter is reset to 0 |
| `Game.GameState.constructor` | src/main.ts:40-54 | the initial state: a blank 30 × 14 board, the O piece at (5, 5), score 0, both timers 0 |
| `Board.ZeroedIsBlank` | src/main.ts:226 | filling every row of the board with 0 gives the blank board |
| `Game.GameState.Reset` | src/main.ts:226-227 | the start button empties the board and sets the score to 0 |
| `Game.GameState.Start` | src/main.ts:224-228 | reset, then the first frame at time 0; from a fresh state it takes no gravity step |

## Left out

- Canvas setup, `draw` and `updateScore` (src/main.ts:3-4, 33-38, 78-103, 182-186) are pixel rendering and DOM writes.
- `requestAnimationFrame` and the `addEventListener` registrations are host event-loop plumbing. `Update` and `KeyDown` are the callbacks, called with the time or the key name.
- `Math.random` becomes the parameters `col` (0..6, that is `floor(r * 14 / 2)`) and `shape` (0..5) of every operation that may lock.
- `window.alert("Game Over!")` is a blocking dialog. The model reports game over as the `over` result of `Solidify` and `Lock`.
- Timestamps are floating point in the source. Here they are integers; only the "above 1000, then reset to 0" rule is modelled.
- The start button hiding itself is a style change.
- Game.GameState.HardDrop: models the corrected drop described under Findings: it tests the row below before each step instead of stepping and backing up. The source's back-up to row -1 is modelled only by `Drop.DropRowAsWritten` and `Drop.AsWrittenDropLeavesBoard`. So is the TypeError that `solidifyPiece` then raises, and the frozen game that follows.
- Writes by `solidifyPiece` off the board are not modelled. A missing row raises a TypeError; a column past the end would grow the row. `Valid()` keeps every piece cell on the board and every operation preserves that, so the merge never writes off the board.
- Game.GameState.Rotate: requires a rectangular matrix. A ragged matrix would read `undefined` into the rotated one; every matrix in play is rectangular.
- Game.GameState.Start: states the reset exactly only when its first frame takes no gravity step. That always holds in the source, where the button is clicked once, before any frame.

## Findings

| source | as written | input that shows it | evidently intended | confidence | as-written member | corrected member |
|---|---|---|---|---|---|---|
| src/main.ts:211-217 | The hard drop always backs up one row after its loop. If the piece already collides where it stands, the loop never runs and the piece goes to row `y - 1`. For a freshly spawned piece that is row -1, and `solidifyPiece` then writes `board[-1][…]`, which throws a TypeError. The piece stays at row -1, and every later lock throws the same way, which also stops the frame loop. | Board with an empty top row and a filled cell at row 1, column 0. The T piece is spawned at column 0, row 0, and space is pressed. | Move down while the row below is free, as repeated soft drops do, and lock there. From a free position this is the row the code reaches. On this input the T goes down to row 28 and locks on the floor (`Drop.OverlapBoardDrop`). | medium; not executed | `Drop.AsWrittenDropLeavesBoard` | `Drop.DropRowIsRepeatedSoftDrop` |

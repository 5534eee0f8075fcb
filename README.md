# Tetris engine of the badge firmware, in Dafny

This project models the game engine of the badge's Tetris application
(`firmware/badge/apps/tetris.py`) and proves what it guarantees.

- **The piece table.** Seven tetrominoes. Each has an ordered list of
  rotation states, and each state has four `(dx, dy)` offsets from the
  pivot, with `y` growing downwards. The table is copied entry by entry,
  including its irregularities:
  - I and O have one state, so I never turns vertical.
  - T's fourth state repeats its first.
  - S and Z alternate between two states.
  - Z's second state is a 2×2 square.
- **The board.** A 9 × 40 grid of integers. 0 marks an empty cell; any
  other value is the 24-bit colour of the piece that was locked there.
- **The game object.** A class `Tetris` with the source's fields:
  - the board;
  - the current piece kind and its pivot;
  - the rotation index;
  - the fall timer;
  - the score;
  - the game-over flag.

  Its methods are the source's operations: spawning, the four gated
  moves, locking, line clearing, restarting, entering the foreground,
  and one tick of the foreground loop.

Module layout:

- `Pieces` holds the tables.
- `Board` holds the grid and the queries and rewrites over it: collision,
  visible cells, stamping, line clearing.
- `Rules` holds a `Snapshot` of all game fields and one pure function per
  transition, with the lemmas about them.
- `Engine` holds the class. Each method is proved to take its fields,
  viewed as `State()`, to the matching `Rules` function of the old state.
  The lemmas in `Rules` then say what that means.

Inputs outside the engine become parameters:

- the piece kind drawn at random: `choice` / `t`;
- the millisecond clock: `now`;
- the key read in a tick: `key`, one value of the `Key` datatype.

The central invariant is `Fits`. While the game runs and a piece exists,
the piece is inside the side walls, above the floor, and on empty cells
only. Every transition preserves it. A spawn re-establishes it either by
fitting or by ending the game.

In these details the model keeps what the code does:

- On game over the code keeps `current_piece` (line 75).
- A restart sets the fall timer to the current time (line 295).
- The cells written by a lock drop rows below the board as well as rows
  above it (line 87).
- A running game with no current piece (before the first entry to the
  foreground) can never lock or spawn. `lock_piece` returns at once when
  there is no piece (lines 115-116).

## Model

| member | source | states |
|---|---|---|
| Pieces.Rotations | firmware/badge/apps/tetris.py:18-41 | Each kind has as many states as `RotationCount` gives. Every state has four offsets, with dx in [-1, 2] and dy in [-1, 1]. |
| Pieces.Shape | firmware/badge/apps/tetris.py:81-82 | The offsets for any rotation index, taken cyclically from the table: always four, with dx in [-1, 2] and dy in [-1, 1]. |
| Pieces.Color | firmware/badge/apps/tetris.py:59-62 | Every piece colour is a non-zero 24-bit value, so a locked cell is never mistaken for an empty one. |
| Pieces.TableQuirks | firmware/badge/apps/tetris.py:19-32 | The table's irregularities: T state 3 equals state 0, S and Z states repeat in pairs, Z state 1 is a 2×2 square, and I and O give the same offsets for every rotation index. |
| Board.EmptyBoard | firmware/badge/apps/tetris.py:50 | A fresh board has 9 rows of 40 cells, all 0. |
| Board.ShapeCollidesIff | firmware/badge/apps/tetris.py:91-111 | The collision scan (walls, floor, then occupancy only for rows at or below the top, stopping at the first hit) answers true exactly when some offset cell is left of column 0, right of column 39, below row 8, or on a non-zero cell of a visible row. |
| Board.SpawnFitsOnEmptyBoard | firmware/badge/apps/tetris.py:18-41 | Any piece, in any rotation, with its pivot at (20, 0), fits on an empty board. |
| Board.VisibleCells | firmware/badge/apps/tetris.py:77-89 | The absolute cells of a shape keep only rows 0..8, and there are at most as many as offsets. |
| Board.VisibleCellsMembers | firmware/badge/apps/tetris.py:84-88 | A cell is reported exactly when it is one of the shape's absolute cells and its row is on the board. |
| Board.FittingCellsAreEmpty | firmware/badge/apps/tetris.py:91-121 | When a shape does not collide, each of its visible cells lies inside the walls and is empty. |
| Board.Stamp | firmware/badge/apps/tetris.py:118-121 | Writing a colour into a list of cells leaves a 9×40 board. Exactly the listed in-grid cells hold the colour; every other cell keeps its value. |
| Board.KeepNonFull | firmware/badge/apps/tetris.py:129-137 | The number of surviving rows plus the number of full rows is the number of rows. No surviving row is full, and surviving rows keep their width. |
| Board.KeepNonFullMembers | firmware/badge/apps/tetris.py:130-132 | A row survives exactly when it was on the board and is not full. |
| Board.Cleared | firmware/badge/apps/tetris.py:125-138 | After clearing, the board is again 9 rows of 40 cells, and no row is full. |
| Board.NoFullRowsKept | firmware/badge/apps/tetris.py:129-137 | On a board without full rows, clearing removes nothing and counts no lines. |
| Board.ClearedIsStable | firmware/badge/apps/tetris.py:125-138 | Clearing twice is clearing once. |
| Rules.CollidesAt | firmware/badge/apps/tetris.py:93-94 | With no current piece, the collision test reports a collision. |
| Rules.PieceCells | firmware/badge/apps/tetris.py:77-89 | The piece's cells: none without a piece, at most four, and all in rows 0..8. |
| Rules.NextRotation | firmware/badge/apps/tetris.py:165 | The candidate rotation is the next index, wrapping to 0 after the last, and always below the kind's rotation count. |
| Rules.StampedBoard | firmware/badge/apps/tetris.py:117-121 | Writing the piece leaves a well-formed board. |
| Rules.SpawnedFits | firmware/badge/apps/tetris.py:66-75 | A spawn keeps the shape invariant and the live-piece invariant. The game is over afterwards exactly when it was over before or the new piece collides at (20, 0) in rotation 0. |
| Rules.ShiftedCollision | firmware/badge/apps/tetris.py:100-101 | Testing the piece with an offset is testing the moved piece with no offset. |
| Rules.TranslatedKeepsInvariant | firmware/badge/apps/tetris.py:140-159 | A gated move keeps the piece fitting and the rotation in range. |
| Rules.RotatedKeepsInvariant | firmware/badge/apps/tetris.py:161-169 | A rotation changes only the rotation index. The index stays in range, I and O stay at 0, and the piece keeps fitting. |
| Rules.LockFillsEmptyCells | firmware/badge/apps/tetris.py:113-121 | For a fitting piece, each cell the lock writes was empty and now holds the non-zero piece colour. No other cell changes before line clearing. |
| Rules.LockedKeepsInvariant | firmware/badge/apps/tetris.py:113-123 | A lock keeps both invariants. The score grows by 100 per full row of the stamped board. |
| Rules.RestartIsFreshGame | firmware/badge/apps/tetris.py:290-305 | A restart always gives the same running game: empty board, score 0, not over, timer at `now`, the new piece at (20, 0) in rotation 0 and fitting. Restarting twice equals restarting once. |
| Rules.FirstEntryStartsGame | firmware/badge/apps/tetris.py:320-322 | The first entry into the foreground of a fresh object starts a running game with a fitting piece on the empty board. |
| Rules.EnteredKeepsInvariant | firmware/badge/apps/tetris.py:320-322 | Entering the foreground keeps both invariants. With a piece in play, only the timer changes. |
| Rules.AfterKeyKeepsInvariant | firmware/badge/apps/tetris.py:233-249 | The key part of a tick keeps both invariants. |
| Rules.AfterGravityKeepsInvariant | firmware/badge/apps/tetris.py:251-256 | The gravity part of a tick keeps both invariants. |
| Rules.StepKeepsInvariant | firmware/badge/apps/tetris.py:223-256 | A whole tick keeps both invariants. |
| Rules.TimerLaw | firmware/badge/apps/tetris.py:243-256 | In a running game the fall timer becomes `now` after a successful manual descent or once 500 ms have elapsed, and is left alone otherwise. |
| Rules.KeyKeepsBoard | firmware/badge/apps/tetris.py:237-249 | A key never changes the board, the score, the piece kind or the game-over flag. |
| Rules.ScoreLaw | firmware/badge/apps/tetris.py:251-256 | In a running game the score changes only when gravity locks the piece, and then by 100 per full row of the stamped board. |
| Rules.GameOverWaitsForRestart | firmware/badge/apps/tetris.py:223-231 | A finished game stays exactly as it is unless F1–F4 is pressed. A restart key yields a running game with score 0. |
| Rules.ManualDownDefersGravity | firmware/badge/apps/tetris.py:243-256 | A successful manual descent moves the piece one row and restarts the timer, so gravity does not also act in that tick. |
| Engine.Tetris.constructor | firmware/badge/apps/tetris.py:47-62 | A new object has an empty board, no piece, all counters 0, and the game not over; both invariants hold. |
| Engine.Tetris.NewPiece | firmware/badge/apps/tetris.py:66-75 | Fields become the spawn of `choice`; both invariants hold afterwards. |
| Engine.Tetris.MoveLeft | firmware/badge/apps/tetris.py:140-145 | Reports success exactly when the left-shifted piece does not collide. On success only `currentX` changes, by -1; otherwise nothing changes. Always fails without a piece. Keeps both invariants. |
| Engine.Tetris.MoveRight | firmware/badge/apps/tetris.py:147-152 | As MoveLeft, with +1. |
| Engine.Tetris.MoveDown | firmware/badge/apps/tetris.py:154-159 | As MoveLeft, with `currentY` increasing by 1. |
| Engine.Tetris.Rotate | firmware/badge/apps/tetris.py:161-169 | Reports success exactly when there is a piece and the next rotation does not collide. On success only the rotation index changes, to the next one; otherwise nothing changes. Keeps both invariants. |
| Engine.ScanRows | firmware/badge/apps/tetris.py:127-137 | The bottom-up scan terminates. It returns the cleared board (as many empty rows as full rows, on top of the surviving rows in their order) and the number of full rows. |
| Engine.Tetris.ClearLines | firmware/badge/apps/tetris.py:125-138 | The board becomes the cleared board and the score grows by 100 times the number of full rows. Nothing else changes. |
| Engine.Tetris.StampPiece | firmware/badge/apps/tetris.py:117-121 | The lock loop writes the piece colour into its visible in-grid cells and changes nothing else. |
| Engine.Tetris.LockPiece | firmware/badge/apps/tetris.py:113-123 | Stamp, clear and spawn, as `Locked`. Nothing happens without a piece. Keeps both invariants. |
| Engine.Tetris.ResetGame | firmware/badge/apps/tetris.py:290-305 | Ends with an empty board, score 0, the game running and a fitting piece. |
| Engine.Tetris.EnterForeground | firmware/badge/apps/tetris.py:320-322 | Restarts the timer and spawns a piece if there is none. Keeps both invariants. |
| Engine.Tetris.HandleKey | firmware/badge/apps/tetris.py:233-249 | Applies at most one of left, right, down and rotate, chosen by the key. A successful down also sets the timer to `now`. |
| Engine.Tetris.AutoFall | firmware/badge/apps/tetris.py:251-256 | Once 500 ms have elapsed, the piece descends or, if it cannot, is locked. Either way the timer becomes `now`. |
| Engine.Tetris.Tick | firmware/badge/apps/tetris.py:223-256 | A finished game changes only on F1–F4, by a full reset. A running game takes the key, then gravity. Both invariants are kept. |

## Left out

- Drawing is not modelled: `draw_board`, the score and game-over labels, and the board border. These are calls into the LVGL library, and the state they touch (`block_objects`, `page`, the label attributes) is not game state.
- The application lifecycle (`start`, `run_background`, `switch_to_background`, the `BaseApp` and `Page` plumbing) is not modelled. From `switch_to_foreground` only the game part is kept: the timer restart and the first spawn (`EnterForeground`).
- Keyboard polling is not modelled. One `Key` value per tick stands for the key the source reads. In a finished game the source polls F1–F4 separately; here the key is F1–F4 or not.
- F5 is a `Key` value with no effect on the game state; the hiding of the application that it triggers is not modelled.
- `random.choice` is not modelled. The chosen kind is the parameter `choice`.
- The clock is a plain integer `now`. The wrap-around of `ticks_ms`/`ticks_diff` is not modelled. The source reads the clock twice in one tick (manual descent, then gravity); the model uses one value for both.
- The pixel constants (`CELL_SIZE`, `BOARD_X`, `BOARD_Y`) and `foreground_sleep_ms` are presentation only and are not modelled.
- The bare `except: pass` blocks are not modelled; they wrap drawing calls only.
- The `moved` local of `run_foreground` is not modelled; it is written and never read.
- Rules.CollidesAt: uses the existential form `SomeCellBlocked` rather than the scan itself. `Board.ShapeCollidesIff` proves the scan, with its early exit, gives the same answer.

# Falling-block game engine, modelled in Dafny

This project models the rules engine of a browser tetromino game: the hook
`useTetris` and the helpers above it. The engine keeps one game state: a
20 x 10 board of 0/1 cells, the current piece, the next piece, score,
level, lines and the `gameOver` and `paused` flags. Every player or timer
action replaces that state with a new one.

The project has four modules:

- `TetrisTypes` (`types.dfy`) holds the board dimensions, the seven
  tetromino types and their catalog shapes and colours, and the records for
  positions and pieces.
- `Pieces` (`pieces.dfy`) spawns a piece of a given type at the top
  centre. It also rotates a shape a quarter turn clockwise, written as
  "transpose, then reverse each row".
- `Grid` (`grid.dfy`) holds the board helpers. The empty board is a
  function. The collision test, the stamping of a landed piece into the
  board and the clearing of full rows are loops in the program. Each is a
  method with loop invariants, proved equal to a specification function:
  `Fits`, `Stamp` and `ClearedRows`.
- `Engine` (`engine.dfy`) holds the game state and the transitions:
  `MovePiece` (with `Land` for a blocked downward move), `RotatePieceHandler`,
  `DropPiece`, `ResetGame` and `TogglePause`. These are pure functions over
  the state, built on the specification functions. The module also holds
  the drop-timer policy and a run of commands.

The state invariant `Engine.Valid` says:

- the board has 20 rows of 10 cells, each 0 or 1;
- the level equals lines / 10 + 1, and score and lines are non-negative;
- the game is over exactly when there is no current piece, and exactly
  when there is no next piece;
- the current piece is a square 0/1 bitmap of its type's size, has its
  type's colour, and fits where it is;
- the next piece is a valid piece of its type at the spawn point.

Every transition keeps the invariant.

The random choice of a piece type becomes a parameter (`draw`, `first`,
`second`): the caller supplies the drawn type. The shape and colour
constants come from a type module that is not part of this model. The
model fixes them as follows:

- the board is 10 wide and 20 high;
- I is a 4 x 4 square, O is 2 x 2, and T, S, Z, J and L are 3 x 3, in
  their usual spawn orientation;
- each type has a conventional hex colour.

The program builds its initial state (`useTetris.ts:86-95`) with the same
record literal that `resetGame` uses. Both are modelled by
`Engine.ResetGame`.

## Model

| member | source | states |
|---|---|---|
| `TetrisTypes.TetrominoShape` | src/hooks/useTetris.ts:7-10 | every catalog shape is a square 0/1 bitmap: 4 x 4 for I, 2 x 2 for O, 3 x 3 for the others |
| `TetrisTypes.TetrominoColor` | src/hooks/useTetris.ts:24 | each type's colour, looked up by type, is a CSS hex colour `#rrggbb`: seven characters, a `#` followed by six lowercase hex digits |
| `Pieces.GetRandomTetromino` | src/hooks/useTetris.ts:17-26 | a spawned piece has the drawn type, that type's catalog shape and colour, and sits at x = floor(10/2) - 1 = 4, y = 0 |
| `Pieces.RotateShape` | src/hooks/useTetris.ts:28-31 | transposing and then reversing each row turns an h x w shape into a w x h shape with new[i][j] = old[h-1-j][i], a clockwise quarter turn |
| `Pieces.RotatePiece` | src/hooks/useTetris.ts:28-33 | rotation changes only the shape (to the clockwise quarter turn); type, position and colour are unchanged |
| `Pieces.RotateFourTimes` | src/hooks/useTetris.ts:28-33 | four rotations of any rectangular non-empty shape give the original shape back |
| `Pieces.RotatePieceFourTimes` | src/hooks/useTetris.ts:28-33 | four rotations of a piece give the original piece back |
| `Pieces.Orientations` | src/hooks/useTetris.ts:28-33 | the four clockwise orientations of a type start at its catalog shape and are all square 0/1 bitmaps of the catalog size |
| `Pieces.SquareOfSquare` | src/hooks/useTetris.ts:28-33 | rotating an n x n 0/1 bitmap gives an n x n 0/1 bitmap |
| `Pieces.RotateStaysInOrientations` | src/hooks/useTetris.ts:28-33 | rotating any of a type's four orientations gives one of them again: repeated rotation cycles through exactly these four |
| `Grid.EmptyRow` | src/hooks/useTetris.ts:14 | an empty row is BOARD_WIDTH zeros |
| `Grid.CreateEmptyBoard` | src/hooks/useTetris.ts:13-15 | the empty board has exactly BOARD_HEIGHT rows of BOARD_WIDTH cells, and every cell is 0 |
| `Grid.IsValidMove` | src/hooks/useTetris.ts:35-54 | the nested loops with early exit return true exactly when the piece fits at the new position: each occupied cell is in columns [0, 10) and above row 20 and, when its row is >= 0, lies on an empty board cell; cells above the top are never compared with the board |
| `Grid.CollisionWitness` | src/hooks/useTetris.ts:42-49 | the piece fails to fit exactly when some occupied cell has x < 0, x >= BOARD_WIDTH, y >= BOARD_HEIGHT, or y >= 0 on a non-zero board cell |
| `Grid.Fits` | src/hooks/useTetris.ts:35-54 | the collision predicate the transitions use in place of `isValidMove` (at lines 110, 129 and 154): every occupied shape cell, moved by pos, is in columns [0, 10), above row 20 and, at a row >= 0, on a 0 cell; a shape that fits has every occupied cell at a row >= 0 on the board, which is what stamping needs |
| `Grid.Stamp` | src/hooks/useTetris.ts:56-72 | stamping keeps the board dimensions |
| `Grid.PlacePiece` | src/hooks/useTetris.ts:56-72 | the copy-and-write loops return a board of the same dimensions in which exactly the cells under an occupied piece cell at a row >= 0 are 1, and every other cell is as in the input (the input is a value and stays unchanged) |
| `Grid.IsFull` | src/hooks/useTetris.ts:75 | a row is full, and is dropped by the filter, exactly when none of its cells is 0 (the negation of `row.some(cell => cell === 0)`) |
| `Grid.LinesCleared` | src/hooks/useTetris.ts:76 | linesCleared is BOARD_HEIGHT minus the surviving rows; on a board of BOARD_HEIGHT rows that is the number of full rows, between 0 and BOARD_HEIGHT |
| `Grid.UnfilledRows` | src/hooks/useTetris.ts:75 | the filter keeps no more rows than the board has, and each kept row is a row of the board that holds a 0 |
| `Grid.EmptyRows` | src/hooks/useTetris.ts:78-80 | the padding is max(n, 0) empty rows |
| `Grid.ClearedRows` | src/hooks/useTetris.ts:74-83 | clearing a BOARD_HEIGHT x BOARD_WIDTH board gives a board of the same dimensions, and 0/1 cells stay 0/1 |
| `Grid.ClearLines` | src/hooks/useTetris.ts:74-83 | filtering and then putting empty rows on top one at a time with the while loop gives exactly `ClearedRows(board)`, with linesCleared = BOARD_HEIGHT minus the number of surviving rows, for boards of any height |
| `Grid.UnfilledRowsCount` | src/hooks/useTetris.ts:75-76 | each row is either kept or full: kept rows plus full rows equal all rows |
| `Grid.UnfilledRowsMembers` | src/hooks/useTetris.ts:75 | a row survives exactly when it is a row of the board that contains a 0 |
| `Grid.UnfilledRowsAppend` | src/hooks/useTetris.ts:75 | the filter distributes over concatenation, so surviving rows keep their relative order |
| `Grid.ClearedRowsSpec` | src/hooks/useTetris.ts:74-83 | on a board of BOARD_HEIGHT rows: linesCleared equals the number of full rows, the result has BOARD_HEIGHT rows, the top linesCleared rows are empty, and below them are the surviving rows in order |
| `Engine.SpawnFitsEmptyBoard` | src/hooks/useTetris.ts:86-95 | a freshly spawned piece of any type fits on the empty board |
| `Engine.ResetGame` | src/hooks/useTetris.ts:169-180 | a reset, like the initial state, gives an empty board, score 0, level 1, lines 0, both flags false, and freshly spawned current and next pieces; the result satisfies the state invariant |
| `Engine.Frozen` | src/hooks/useTetris.ts:101-103 | the guard shared by moving and rotating (also at line 149): the game is over, paused or has no current piece; in a valid state that is exactly "over or paused" |
| `Engine.Land` | src/hooks/useTetris.ts:118-140 | on landing: the board becomes `ClearedRows(Stamp(board, piece))`; score grows by linesCleared x 100 x the old level; lines grow by linesCleared; level = lines / 10 + 1; paused is kept; gameOver holds exactly when the promoted next piece does not fit on the cleared board at its own position, and then both pieces are null; otherwise the next piece becomes current and a fresh piece of the drawn type becomes next |
| `Engine.MovePiece` | src/hooks/useTetris.ts:99-145 | the state is unchanged when the game is over, paused or has no current piece; a move that fits changes only the current piece's position, by (dx, dy); a blocked move with dy <= 0 changes nothing; a blocked move with dy > 0 lands the piece as `Land` states |
| `Engine.LandingScore` | src/hooks/useTetris.ts:120-124 | a landing adds to lines the number of full rows of the stamped board, and adds that number x 100 x the old level to the score |
| `Engine.ScoringArithmetic` | src/hooks/useTetris.ts:123-125 | with lines >= 0 and level = lines / 10 + 1, clearing n >= 0 lines adds a non-negative n x 100 x level to the score and cannot lower the recomputed level |
| `Engine.LandProgress` | src/hooks/useTetris.ts:118-140 | a landing never lowers the score, the lines or the level |
| `Engine.LandPreservesValid` | src/hooks/useTetris.ts:118-140 | a landing keeps the state invariant; in particular the promoted piece fits, and game over leaves both pieces null |
| `Engine.MovePreservesValid` | src/hooks/useTetris.ts:99-145 | every move keeps the state invariant |
| `Engine.MoveProgress` | src/hooks/useTetris.ts:123-125 | under any move, score, lines and level never decrease, and the level stays at least 1 |
| `Engine.RotatedPieceValid` | src/hooks/useTetris.ts:153 | a valid piece can be rotated, and the rotated piece is still a square bitmap of its type's size in its type's colour |
| `Engine.RotatePieceHandler` | src/hooks/useTetris.ts:147-163 | the state is unchanged when the game is over, paused or has no current piece; otherwise the rotation is committed exactly when the rotated piece fits at the same position, and nothing else changes |
| `Engine.RotatePreservesValid` | src/hooks/useTetris.ts:147-163 | every rotation keeps the state invariant |
| `Engine.DropPiece` | src/hooks/useTetris.ts:165-167 | a drop is a move by (0, 1) and keeps the state invariant |
| `Engine.TogglePause` | src/hooks/useTetris.ts:182-187 | the pause toggle flips `paused`, also when the game is over; every other field is unchanged, and so is the state invariant |
| `Engine.DropInterval` | src/hooks/useTetris.ts:197 | the drop interval max(500, 1000 - (level - 1) x 100) is at least 500 ms and at least 1000 - (level - 1) x 100 ms, and equal to one of the two, so it is exactly their maximum; it is at most 1000 ms for level >= 1 |
| `Engine.DropIntervalNonIncreasing` | src/hooks/useTetris.ts:197 | a higher level never has a longer drop interval |
| `Engine.DropTimer` | src/hooks/useTetris.ts:196-202 | a timer runs exactly when the game is not over, not paused and has a current piece; its period is `DropInterval(level)`, which is in [500, 1000] in a valid state |
| `Engine.Step` | src/hooks/useTetris.ts:212-219 | every operation the hook exposes keeps the state invariant; a pause toggle always flips `paused`; a reset always restores score 0, level 1, lines 0 and both flags false; every other operation never lowers score, lines or level |
| `Engine.Run` | src/hooks/useTetris.ts:212-219 | any sequence of operations from a valid state ends in a valid state, and a sequence without a reset never lowers score, lines or level |
| `Engine.GameOverIsFinal` | src/hooks/useTetris.ts:101-103 | once the game is over, any sequence of operations without a reset keeps it over and leaves board, score, lines and level unchanged |
| `Engine.PausedIsFrozen` | src/hooks/useTetris.ts:149-151 | while paused, every operation except the pause toggle and reset leaves the state unchanged |

## Left out

- The game loop's timer (`useTetris.ts:189-210`) is left out: `setInterval`, `clearInterval`, the `intervalRef` lifecycle and the effect's re-run on dependency changes. Only the decision whether a timer runs and its period are modelled (`Engine.DropTimer`, `Engine.DropInterval`).
- `Math.random` is left out. The drawn type is a parameter, and uniformity of the draw is not modelled.
- React's `useState` and `useCallback` wrappers are left out. The state-updater bodies are modelled as functions from the previous state to the next.
- The module that defines `BOARD_WIDTH`, `BOARD_HEIGHT`, `TETROMINO_SHAPES` and `TETROMINO_COLORS` is not part of this model. The width, height, shapes and colours above are chosen values.
- The rendering components (`GameBoard.tsx`, `NextPiece.tsx`, `GameInfo.tsx`) are left out, including the pause button being disabled on game over. That is display gating.
- Keyboard wiring (`TetrisGame.tsx`) is left out, including its early return on game over. That is input wiring, not engine behaviour.
- Client-mount scaffolding (`ClientTetrisGame.tsx`) and the page layout (`layout.tsx`) are left out. They have no logic.
- Integer width is not modelled. Score, lines and level are unbounded integers, while JavaScript numbers are exact only up to 2^53, far beyond any reachable score.
- Update in place is not modelled. The board copy (`board.map(row => [...row])`), the writes into it and `unshift` are modelled on sequences, which are values, so aliasing cannot arise.
- Engine.Valid: the invariant says a piece is a square 0/1 bitmap of its type's size in its type's colour. It does not say the current piece is one of its type's four orientations, nor that the next piece still has its catalog shape. Both follow from how pieces are spawned and rotated but are not proved as invariants of the game state; `Pieces.RotateStaysInOrientations` proves separately that rotation cycles through the four orientations. Keeping them in the state invariant makes the transition proofs too costly.
- Engine.MovePiece, Engine.RotatePieceHandler, Engine.DropPiece and Engine.Land require the state invariant `Engine.Valid`. Every state the hook builds meets it: `Engine.ResetGame` (also the initial state) ensures it, and `Engine.Step` and `Engine.Run` keep it. States outside it are not modelled. On them the program may throw, for example on a null next piece at landing (`useTetris.ts:128-129`) or on a stamped row >= BOARD_HEIGHT (`useTetris.ts:65`). It may write outside the board. It may also give odd results without throwing: a board of 21 rows gets linesCleared = -1 and loses score, and a current piece on a filled cell is moved or stamped where it is.
- Grid.PlacePiece requires every occupied cell at a row >= 0 to lie on the board. Out-of-range writes are not modelled. In JavaScript a row >= BOARD_HEIGHT throws (the row is `undefined`), a column >= BOARD_WIDTH grows the row, and a negative column creates a non-index property that no later read sees, so that write is silently lost. The engine only stamps a piece that fits.
- Pieces.RotateShape and Pieces.RotatePiece require a rectangular shape with at least one row. Rotating an empty or ragged shape (an error or `undefined` cells in JavaScript) is not modelled. The catalog shapes are all square.
- Cells are integers, and any non-zero value counts as occupied, following JavaScript truthiness. Non-numeric cell values are not modelled.

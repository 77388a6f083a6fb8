/**
 * The board helpers: the empty board, the collision test, stamping a piece
 * into the board and clearing full rows. Each loop of the program is a
 * method proved against a specification function; the game transitions,
 * being functions, use the specification functions.
 */
module Grid {
  import opened TetrisTypes

  /** BOARD_HEIGHT rows of BOARD_WIDTH cells each. */
  predicate WellFormed(board: Board) {
    |board| == BOARD_HEIGHT && forall r :: 0 <= r < |board| ==> |board[r]| == BOARD_WIDTH
  }

  /** Every cell is 0 (empty) or 1 (filled). */
  predicate Binary(board: Board) {
    forall r, c :: 0 <= r < |board| && 0 <= c < |board[r]| ==> board[r][c] == 0 || board[r][c] == 1
  }

  function EmptyRow(): (row: Row)
    ensures |row| == BOARD_WIDTH && forall c :: 0 <= c < |row| ==> row[c] == 0
  {
    seq(BOARD_WIDTH, _ => 0)
  }

  function CreateEmptyBoard(): (board: Board)
    ensures WellFormed(board) && Binary(board)
    ensures forall r, c :: 0 <= r < BOARD_HEIGHT && 0 <= c < BOARD_WIDTH ==> board[r][c] == 0
  {
    seq(BOARD_HEIGHT, _ => EmptyRow())
  }

  // ---------------------------------------------------------------- collision

  /** Shape cell (x, y) exists and is non-zero. */
  predicate Occupied(shape: Shape, x: int, y: int) {
    0 <= y < |shape| && 0 <= x < |shape[y]| && shape[y][x] != 0
  }

  /**
   * A piece cell may sit at column col, row row: inside the side walls, above
   * the floor, and on an empty cell unless it is above the top of the board.
   */
  predicate Free(board: Board, col: int, row: int)
    requires WellFormed(board)
  {
    0 <= col < BOARD_WIDTH && row < BOARD_HEIGHT && (row >= 0 ==> board[row][col] == 0)
  }

  /**
   * The shape anchored at pos collides with nothing. A shape that fits has
   * every occupied cell at a row >= 0 on the board, which is what stamping needs.
   */
  predicate Fits(board: Board, shape: Shape, pos: Position): (ok: bool)
    requires WellFormed(board)
    ensures ok ==> InBounds(shape, pos)
  {
    forall y, x :: 0 <= y < |shape| && 0 <= x < |shape[y]| && Occupied(shape, x, y) ==> Free(board, pos.x + x, pos.y + y)
  }

  /**
   * The collision test: false exactly when some occupied cell of the piece,
   * moved to newPos, lies left of column 0, right of the last column, below
   * the floor, or on a filled cell at a row >= 0.
   */
  method IsValidMove(board: Board, piece: Tetromino, newPos: Position) returns (ok: bool)
    requires WellFormed(board)
    ensures ok == Fits(board, piece.shape, newPos)
  {
    var shape := piece.shape;
    var y := 0;
    while y < |shape|
      invariant 0 <= y <= |shape|
      invariant forall yy, x :: yy < y && Occupied(shape, x, yy) ==> Free(board, newPos.x + x, newPos.y + yy)
    {
      var x := 0;
      while x < |shape[y]|
        invariant 0 <= x <= |shape[y]|
        invariant forall yy, xx :: yy < y && Occupied(shape, xx, yy) ==> Free(board, newPos.x + xx, newPos.y + yy)
        invariant forall xx :: xx < x && Occupied(shape, xx, y) ==> Free(board, newPos.x + xx, newPos.y + y)
      {
        if shape[y][x] != 0 {
          var newX := newPos.x + x;
          var newY := newPos.y + y;
          if newX < 0 || newX >= BOARD_WIDTH || newY >= BOARD_HEIGHT || (newY >= 0 && board[newY][newX] != 0) {
            assert Occupied(shape, x, y) && !Free(board, newX, newY);
            return false;
          }
        }
        x := x + 1;
      }
      y := y + 1;
    }
    return true;
  }

  /**
   * A collision has a witness: an occupied cell that lands left of the
   * board, right of it, below it, or on a filled cell at a row >= 0.
   */
  lemma CollisionWitness(board: Board, shape: Shape, pos: Position)
    requires WellFormed(board)
    ensures !Fits(board, shape, pos) <==>
      exists y, x :: Occupied(shape, x, y) &&
        (pos.x + x < 0 || pos.x + x >= BOARD_WIDTH || pos.y + y >= BOARD_HEIGHT ||
         (pos.y + y >= 0 && board[pos.y + y][pos.x + x] != 0))
  {
  }

  /** Every occupied cell at a row >= 0 lies on the board. */
  ghost predicate InBounds(shape: Shape, pos: Position) {
    forall y, x :: Occupied(shape, x, y) && pos.y + y >= 0 ==> 0 <= pos.x + x < BOARD_WIDTH && pos.y + y < BOARD_HEIGHT
  }

  // ---------------------------------------------------------------- stamping

  /** Board cell (c, r) is covered by an occupied cell of the shape anchored at pos. */
  predicate Covers(shape: Shape, pos: Position, c: int, r: int) {
    Occupied(shape, c - pos.x, r - pos.y)
  }

  /** The board with every cell covered by the piece set to 1 and every other cell as it was. */
  function Stamp(board: Board, shape: Shape, pos: Position): (b: Board)
    requires WellFormed(board)
    ensures WellFormed(b)
  {
    seq(BOARD_HEIGHT, r requires 0 <= r < BOARD_HEIGHT =>
      seq(BOARD_WIDTH, c requires 0 <= c < BOARD_WIDTH =>
        if Covers(shape, pos, c, r) then 1 else board[r][c]))
  }

  /** Covered by a shape cell visited before (y, x) in row-major order. */
  predicate CoveredBefore(shape: Shape, pos: Position, c: int, r: int, y: int, x: int) {
    Covers(shape, pos, c, r) && (r - pos.y < y || (r - pos.y == y && c - pos.x < x))
  }

  /**
   * Writes 1 into a copy of the board at every occupied piece cell that is
   * at a row >= 0; the board passed in is a value and is not changed.
   */
  method PlacePiece(board: Board, piece: Tetromino) returns (newBoard: Board)
    requires WellFormed(board) && InBounds(piece.shape, piece.position)
    ensures WellFormed(newBoard)
    ensures forall r, c :: 0 <= r < BOARD_HEIGHT && 0 <= c < BOARD_WIDTH ==>
      newBoard[r][c] == if Covers(piece.shape, piece.position, c, r) then 1 else board[r][c]
    ensures newBoard == Stamp(board, piece.shape, piece.position)
  {
    var shape, pos := piece.shape, piece.position;
    newBoard := board;
    var y := 0;
    while y < |shape|
      invariant 0 <= y <= |shape|
      invariant WellFormed(newBoard)
      invariant forall r, c :: 0 <= r < BOARD_HEIGHT && 0 <= c < BOARD_WIDTH ==>
        newBoard[r][c] == if CoveredBefore(shape, pos, c, r, y, 0) then 1 else board[r][c]
    {
      var x := 0;
      while x < |shape[y]|
        invariant 0 <= x <= |shape[y]|
        invariant WellFormed(newBoard)
        invariant forall r, c :: 0 <= r < BOARD_HEIGHT && 0 <= c < BOARD_WIDTH ==>
          newBoard[r][c] == if CoveredBefore(shape, pos, c, r, y, x) then 1 else board[r][c]
      {
        if shape[y][x] != 0 {
          var boardX := pos.x + x;
          var boardY := pos.y + y;
          if boardY >= 0 {
            assert Occupied(shape, x, y);
            newBoard := newBoard[boardY := newBoard[boardY][boardX := 1]];
          }
        }
        x := x + 1;
      }
      y := y + 1;
    }
    var stamped := Stamp(board, shape, pos);
    forall r | 0 <= r < BOARD_HEIGHT
      ensures newBoard[r] == stamped[r]
    {
      assert forall c :: 0 <= c < BOARD_WIDTH ==> newBoard[r][c] == stamped[r][c];
    }
  }

  // ---------------------------------------------------------------- clearing

  /** A row is full when it holds no 0 cell. */
  predicate IsFull(row: Row): (full: bool)
    ensures full <==> forall c :: 0 <= c < |row| ==> row[c] != 0
  {
    0 !in row
  }

  /** The rows that still hold a 0 cell, in their original order. */
  function UnfilledRows(board: Board): (kept: Board)
    ensures |kept| <= |board|
    ensures forall i :: 0 <= i < |kept| ==> kept[i] in board && !IsFull(kept[i])
  {
    if board == [] then []
    else (if IsFull(board[0]) then [] else [board[0]]) + UnfilledRows(board[1..])
  }

  /** The number of full rows. */
  function CountFull(board: Board): (n: nat)
  {
    if board == [] then 0
    else (if IsFull(board[0]) then 1 else 0) + CountFull(board[1..])
  }

  /** n fresh empty rows (none when n <= 0). */
  function EmptyRows(n: int): (rows: Board)
    ensures |rows| == if n <= 0 then 0 else n
    ensures forall i :: 0 <= i < |rows| ==> rows[i] == EmptyRow()
  {
    if n <= 0 then [] else seq(n, _ => EmptyRow())
  }

  /**
   * Lines reported cleared: BOARD_HEIGHT minus the surviving rows, which on a
   * board of BOARD_HEIGHT rows is the number of full rows.
   */
  function LinesCleared(board: Board): (n: int)
    ensures |board| == BOARD_HEIGHT ==> n == CountFull(board) && 0 <= n <= BOARD_HEIGHT
  {
    UnfilledRowsCount(board);
    BOARD_HEIGHT - |UnfilledRows(board)|
  }

  /** The surviving rows with empty rows on top until the board is BOARD_HEIGHT tall. */
  function ClearedRows(board: Board): (b: Board)
    ensures WellFormed(board) ==> WellFormed(b)
    ensures Binary(board) ==> Binary(b)
  {
    var kept := UnfilledRows(board);
    EmptyRows(BOARD_HEIGHT - |kept|) + kept
  }

  /**
   * Filters out the full rows, then puts empty rows on top one at a time
   * until the board has BOARD_HEIGHT rows again.
   */
  method ClearLines(board: Board) returns (newBoard: Board, linesCleared: int)
    ensures newBoard == ClearedRows(board)
    ensures linesCleared == LinesCleared(board)
  {
    var kept := UnfilledRows(board);
    linesCleared := BOARD_HEIGHT - |kept|;
    newBoard := kept;
    while |newBoard| < BOARD_HEIGHT
      invariant |newBoard| >= |kept|
      invariant |newBoard| == |kept| || |newBoard| <= BOARD_HEIGHT
      invariant newBoard == EmptyRows(|newBoard| - |kept|) + kept
      decreases BOARD_HEIGHT - |newBoard|
    {
      EmptyRowsGrow(|newBoard| - |kept|);
      newBoard := [EmptyRow()] + newBoard;
    }
    assert EmptyRows(|newBoard| - |kept|) == EmptyRows(BOARD_HEIGHT - |kept|);
  }

  /** One more empty row on top of n empty rows is n + 1 empty rows. */
  lemma EmptyRowsGrow(n: nat)
    ensures [EmptyRow()] + EmptyRows(n) == EmptyRows(n + 1)
  {
    assert forall i :: 0 <= i < n + 1 ==> ([EmptyRow()] + EmptyRows(n))[i] == EmptyRow();
  }

  /** Every row is either kept or counted as full. */
  lemma {:induction false} UnfilledRowsCount(board: Board)
    ensures |UnfilledRows(board)| + CountFull(board) == |board|
  {
    if board != [] {
      UnfilledRowsCount(board[1..]);
    }
  }

  /** A row survives exactly when it is a row of the board with a 0 cell. */
  lemma {:induction false} UnfilledRowsMembers(board: Board, row: Row)
    ensures row in UnfilledRows(board) <==> row in board && !IsFull(row)
  {
    if board != [] {
      UnfilledRowsMembers(board[1..], row);
      assert board == [board[0]] + board[1..];
    }
  }

  /** Filtering distributes over concatenation, so surviving rows keep their relative order. */
  lemma {:induction false} UnfilledRowsAppend(top: Board, bottom: Board)
    ensures UnfilledRows(top + bottom) == UnfilledRows(top) + UnfilledRows(bottom)
  {
    if top == [] {
      assert top + bottom == bottom;
    } else {
      assert (top + bottom)[0] == top[0];
      assert (top + bottom)[1..] == top[1..] + bottom;
      UnfilledRowsAppend(top[1..], bottom);
    }
  }

  /**
   * On a board of BOARD_HEIGHT rows, clearing reports one line per full
   * row, keeps the height, puts that many empty rows on top and the
   * surviving rows, in order, below them.
   */
  lemma ClearedRowsSpec(board: Board)
    requires |board| == BOARD_HEIGHT
    ensures LinesCleared(board) == CountFull(board)
    ensures |ClearedRows(board)| == BOARD_HEIGHT
    ensures forall i :: 0 <= i < LinesCleared(board) ==> ClearedRows(board)[i] == EmptyRow()
    ensures ClearedRows(board)[LinesCleared(board)..] == UnfilledRows(board)
  {
    UnfilledRowsCount(board);
  }
}

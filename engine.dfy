/**
 * The game state and the transitions the hook hands to its state setter:
 * moving (with landing, scoring, levelling and game-over detection),
 * rotating, dropping, resetting and pausing, plus the drop-timer policy.
 * Every transition is a function from the previous state to the next one.
 */
module Engine {
  import opened TetrisTypes
  import opened Pieces
  import opened Grid

  datatype GameState = GameState(
    board: Board,
    currentPiece: Option<Tetromino>,
    nextPiece: Option<Tetromino>,
    score: int,
    level: int,
    lines: int,
    gameOver: bool,
    paused: bool)

  /** A piece as the engine keeps it: a square 0/1 bitmap of its type's size, in its type's colour. */
  predicate PieceValid(p: Tetromino) {
    SquareBitmap(p.shape, ShapeSize(p.kind)) && p.color == TetrominoColor(p.kind)
  }

  /**
   * The state invariant: a BOARD_HEIGHT x BOARD_WIDTH board of 0/1 cells;
   * the level follows from the lines; the game is over exactly when there
   * is no current piece and exactly when there is no next piece; the
   * current piece fits where it is; the next piece is still at the spawn point.
   */
  predicate Valid(s: GameState) {
    && WellFormed(s.board) && Binary(s.board)
    && s.score >= 0 && s.lines >= 0 && s.level == s.lines / 10 + 1
    && (s.gameOver <==> s.currentPiece.None?)
    && (s.gameOver <==> s.nextPiece.None?)
    && (s.currentPiece.Some? ==>
          PieceValid(s.currentPiece.value) &&
          Fits(s.board, s.currentPiece.value.shape, s.currentPiece.value.position))
    && (s.nextPiece.Some? ==> PieceValid(s.nextPiece.value) && s.nextPiece.value.position == Position(SPAWN_X, 0))
  }

  /** Every freshly spawned piece fits on the empty board. */
  lemma SpawnFitsEmptyBoard(t: TetrominoType)
    ensures Fits(CreateEmptyBoard(), GetRandomTetromino(t).shape, GetRandomTetromino(t).position)
  {
  }

  /**
   * The state a game starts from, and the one a reset produces: an empty
   * board, no score, level 1, no lines, neither flag set, and the two drawn
   * types as current and next piece.
   */
  function ResetGame(first: TetrominoType, second: TetrominoType): (s: GameState)
    ensures Valid(s)
    ensures s.board == CreateEmptyBoard() && s.score == 0 && s.level == 1 && s.lines == 0
    ensures !s.gameOver && !s.paused
    ensures s.currentPiece == Some(GetRandomTetromino(first))
    ensures s.nextPiece == Some(GetRandomTetromino(second))
  {
    SpawnFitsEmptyBoard(first);
    GameState(CreateEmptyBoard(), Some(GetRandomTetromino(first)), Some(GetRandomTetromino(second)),
              0, 1, 0, false, false)
  }

  /** Moves are ignored when the game is over, paused or has no current piece. */
  predicate Frozen(s: GameState): (frozen: bool)
    ensures Valid(s) ==> (frozen <==> s.gameOver || s.paused)
  {
    s.gameOver || s.paused || s.currentPiece.None?
  }

  /**
   * What a landing does: the current piece is stamped into the board, full
   * rows are cleared and scored at the old level, the lines and level are
   * updated, and the next piece is promoted unless it collides on the
   * cleared board, which ends the game and drops both pieces.
   */
  predicate Landed(s: GameState, r: GameState, draw: TetrominoType)
    requires Valid(s) && s.currentPiece.Some?
  {
    var cur := s.currentPiece.value;
    var placed := Stamp(s.board, cur.shape, cur.position);
    var n := LinesCleared(placed);
    && r.board == ClearedRows(placed)
    && r.score == s.score + n * 100 * s.level
    && r.lines == s.lines + n
    && r.level == r.lines / 10 + 1
    && r.paused == s.paused
    && (r.gameOver <==> !Fits(r.board, s.nextPiece.value.shape, s.nextPiece.value.position))
    && (r.gameOver ==> r.currentPiece.None? && r.nextPiece.None?)
    && (!r.gameOver ==> r.currentPiece == s.nextPiece && r.nextPiece == Some(GetRandomTetromino(draw)))
  }

  /**
   * The landing of the current piece, for a downward move that is blocked.
   */
  function Land(s: GameState, draw: TetrominoType): (r: GameState)
    requires Valid(s) && s.currentPiece.Some?
    ensures Landed(s, r, draw)
  {
    var cur := s.currentPiece.value;
    var newBoard := Stamp(s.board, cur.shape, cur.position);
    var clearedBoard := ClearedRows(newBoard);
    var linesCleared := LinesCleared(newBoard);
    var newScore := s.score + linesCleared * 100 * s.level;
    var newLines := s.lines + linesCleared;
    var newLevel := newLines / 10 + 1;
    var newPiece := s.nextPiece.value;
    var gameOver := !Fits(clearedBoard, newPiece.shape, newPiece.position);
    s.(board := clearedBoard,
       currentPiece := if gameOver then None else Some(newPiece),
       nextPiece := if gameOver then None else Some(GetRandomTetromino(draw)),
       score := newScore,
       level := newLevel,
       lines := newLines,
       gameOver := gameOver)
  }

  /**
   * Try to shift the current piece by (dx, dy). A move that fits changes
   * only the piece's position; a blocked move that is not downward changes
   * nothing; a blocked downward move lands the piece. `draw` is the type
   * of the piece spawned as the new next piece when one is needed.
   */
  function MovePiece(s: GameState, dx: int, dy: int, draw: TetrominoType): (r: GameState)
    requires Valid(s)
    ensures Frozen(s) ==> r == s
    ensures !Frozen(s) ==>
      var cur := s.currentPiece.value;
      var np := Position(cur.position.x + dx, cur.position.y + dy);
      && (Fits(s.board, cur.shape, np) ==> r == s.(currentPiece := Some(cur.(position := np))))
      && (!Fits(s.board, cur.shape, np) && dy <= 0 ==> r == s)
      && (!Fits(s.board, cur.shape, np) && dy > 0 ==> Landed(s, r, draw))
  {
    if Frozen(s) then s
    else
      var cur := s.currentPiece.value;
      var newPosition := Position(cur.position.x + dx, cur.position.y + dy);
      if Fits(s.board, cur.shape, newPosition) then
        s.(currentPiece := Some(cur.(position := newPosition)))
      else if dy > 0 then
        Land(s, draw)
      else
        s
  }

  /** A valid piece can be rotated, and its rotation is valid again. */
  lemma RotatedPieceValid(p: Tetromino)
    requires PieceValid(p)
    ensures Rectangular(p.shape) && PieceValid(RotatePiece(p))
  {
    SquareOfSquare(p.shape, |p.shape|);
  }

  /**
   * Rotate the current piece a quarter turn in place; the rotation is kept
   * only when it fits at the same position, and there is no wall kick.
   */
  function RotatePieceHandler(s: GameState): (r: GameState)
    requires Valid(s)
    ensures Frozen(s) ==> r == s
    ensures !Frozen(s) ==>
      var rotated := RotatePiece(s.currentPiece.value);
      && (Fits(s.board, rotated.shape, rotated.position) ==> r == s.(currentPiece := Some(rotated)))
      && (!Fits(s.board, rotated.shape, rotated.position) ==> r == s)
  {
    if Frozen(s) then s
    else
      var rotated := RotatePiece(s.currentPiece.value);
      if Fits(s.board, rotated.shape, rotated.position) then s.(currentPiece := Some(rotated))
      else s
  }

  /** Flip the paused flag, also when the game is over; nothing else changes. */
  function TogglePause(s: GameState): (r: GameState)
    ensures r.paused == !s.paused
    ensures r.(paused := s.paused) == s
    ensures Valid(s) ==> Valid(r)
  {
    s.(paused := !s.paused)
  }

  /**
   * A landing scores each full row of the stamped board: the lines grow by
   * the number of full rows and the score by that number times 100 times
   * the level before the landing.
   */
  lemma LandingScore(s: GameState, draw: TetrominoType)
    requires Valid(s) && s.currentPiece.Some?
    ensures var cur := s.currentPiece.value;
      var placed := Stamp(s.board, cur.shape, cur.position);
      var r := Land(s, draw);
      && LinesCleared(placed) == CountFull(placed)
      && r.lines == s.lines + CountFull(placed)
      && r.score == s.score + CountFull(placed) * 100 * s.level
  {
    var cur := s.currentPiece.value;
    ClearedRowsSpec(Stamp(s.board, cur.shape, cur.position));
  }

  /** A landing keeps the state invariant. */
  lemma LandPreservesValid(s: GameState, draw: TetrominoType)
    requires Valid(s) && s.currentPiece.Some?
    ensures Valid(Land(s, draw))
  {
  }

  /** Every move keeps the state invariant. */
  lemma MovePreservesValid(s: GameState, dx: int, dy: int, draw: TetrominoType)
    requires Valid(s)
    ensures Valid(MovePiece(s, dx, dy, draw))
  {
    if !Frozen(s) {
      var cur := s.currentPiece.value;
      var np := Position(cur.position.x + dx, cur.position.y + dy);
      if !Fits(s.board, cur.shape, np) && dy > 0 {
        LandPreservesValid(s, draw);
      }
    }
  }

  /** Every rotation keeps the state invariant. */
  lemma RotatePreservesValid(s: GameState)
    requires Valid(s)
    ensures Valid(RotatePieceHandler(s))
  {
  }

  /** The timer's action: one row down, landing the piece when it is blocked. */
  function DropPiece(s: GameState, draw: TetrominoType): (r: GameState)
    requires Valid(s)
    ensures r == MovePiece(s, 0, 1, draw)
    ensures Valid(r)
  {
    MovePreservesValid(s, 0, 1, draw);
    MovePiece(s, 0, 1, draw)
  }

  /** Clearing n >= 0 lines at a positive level adds a non-negative score and cannot lower the level. */
  lemma ScoringArithmetic(lines: int, level: int, n: nat)
    requires lines >= 0 && level == lines / 10 + 1
    ensures n * 100 * level >= 0
    ensures level <= (lines + n) / 10 + 1
  {
  }

  /** A landing never lowers the score, the lines or the level. */
  lemma LandProgress(s: GameState, draw: TetrominoType)
    requires Valid(s) && s.currentPiece.Some?
    ensures var r := Land(s, draw);
      s.score <= r.score && s.lines <= r.lines && s.level <= r.level
  {
    var cur := s.currentPiece.value;
    LandingScore(s, draw);
    ScoringArithmetic(s.lines, s.level, CountFull(Stamp(s.board, cur.shape, cur.position)));
  }

  /** Score, lines and level never decrease under a move, and the level stays at least 1. */
  lemma MoveProgress(s: GameState, dx: int, dy: int, draw: TetrominoType)
    requires Valid(s)
    ensures var r := MovePiece(s, dx, dy, draw);
      s.score <= r.score && s.lines <= r.lines && 1 <= s.level <= r.level
  {
    if !Frozen(s) {
      var cur := s.currentPiece.value;
      var np := Position(cur.position.x + dx, cur.position.y + dy);
      if !Fits(s.board, cur.shape, np) && dy > 0 {
        LandProgress(s, draw);
      }
    }
  }

  /** Drop-timer period in milliseconds: 100 ms faster per level, never below 500 ms. */
  function DropInterval(level: int): (ms: int)
    ensures ms >= 500 && ms >= 1000 - (level - 1) * 100
    ensures level >= 1 ==> ms <= 1000
    ensures ms == 500 || ms == 1000 - (level - 1) * 100
  {
    var t := 1000 - (level - 1) * 100;
    if t > 500 then t else 500
  }

  /** A higher level never has a longer drop interval. */
  lemma DropIntervalNonIncreasing(a: int, b: int)
    requires a <= b
    ensures DropInterval(b) <= DropInterval(a)
  {
  }

  /**
   * The period of the drop timer the game loop runs in state s, or None
   * when no timer runs (game over, paused, or no current piece).
   */
  function DropTimer(s: GameState): (period: Option<int>)
    ensures period.Some? <==> !Frozen(s)
    ensures period.Some? ==> period.value == DropInterval(s.level)
    ensures Valid(s) && period.Some? ==> 500 <= period.value <= 1000
  {
    if !s.gameOver && !s.paused && s.currentPiece.Some? then Some(DropInterval(s.level)) else None
  }

  // ------------------------------------------------------------- command runs

  /** The operations the hook exposes, with the random draws they need. */
  datatype Command =
    | Move(dx: int, dy: int, draw: TetrominoType)
    | Rotate
    | Drop(draw: TetrominoType)
    | Reset(first: TetrominoType, second: TetrominoType)
    | Pause

  function Step(s: GameState, c: Command): (r: GameState)
    requires Valid(s)
    ensures Valid(r)
    ensures c.Pause? ==> r.paused != s.paused
    ensures c.Reset? ==> r.score == 0 && r.level == 1 && r.lines == 0 && !r.gameOver && !r.paused
    ensures !c.Reset? ==> s.score <= r.score && s.lines <= r.lines && s.level <= r.level
  {
    match c
    case Move(dx, dy, draw) =>
      MovePreservesValid(s, dx, dy, draw); MoveProgress(s, dx, dy, draw); MovePiece(s, dx, dy, draw)
    case Rotate => RotatePreservesValid(s); RotatePieceHandler(s)
    case Drop(draw) => MoveProgress(s, 0, 1, draw); DropPiece(s, draw)
    case Reset(first, second) => ResetGame(first, second)
    case Pause => TogglePause(s)
  }

  /**
   * The state after applying the commands in order. Without a reset, score,
   * lines and level never go down.
   */
  function Run(s: GameState, cs: seq<Command>): (r: GameState)
    requires Valid(s)
    ensures Valid(r)
    ensures (forall i :: 0 <= i < |cs| ==> !cs[i].Reset?) ==>
      s.score <= r.score && s.lines <= r.lines && s.level <= r.level
    decreases |cs|
  {
    if cs == [] then s
    else
      assert forall i :: 0 <= i < |cs| - 1 ==> cs[1..][i] == cs[i + 1];
      Run(Step(s, cs[0]), cs[1..])
  }

  /**
   * Once the game is over, only a reset changes the board, score, lines or
   * level: every other command sequence leaves them as they are and the game
   * stays over.
   */
  lemma {:induction false} GameOverIsFinal(s: GameState, cs: seq<Command>)
    requires Valid(s) && s.gameOver
    requires forall i :: 0 <= i < |cs| ==> !cs[i].Reset?
    ensures var r := Run(s, cs);
      r.gameOver && r.board == s.board && r.score == s.score && r.lines == s.lines && r.level == s.level
    decreases |cs|
  {
    if cs != [] {
      GameOverIsFinal(Step(s, cs[0]), cs[1..]);
    }
  }

  /** While paused, only a pause toggle or a reset changes anything. */
  lemma PausedIsFrozen(s: GameState, c: Command)
    requires Valid(s) && s.paused && !c.Pause? && !c.Reset?
    ensures Step(s, c) == s
  {
  }
}

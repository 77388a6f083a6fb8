/**
 * Shared definitions of the game engine: board dimensions, the seven
 * tetromino types with their catalog shapes and colours, positions and the
 * active-piece record. The values of the catalog are fixed by this model
 * (the type module that defines them in the program is not part of it).
 */
module TetrisTypes {

  const BOARD_WIDTH := 10
  const BOARD_HEIGHT := 20

  datatype Option<T> = None | Some(value: T)

  datatype TetrominoType = I | O | T | S | Z | J | L

  /** A board cell or shape cell is a number; any non-zero number counts as occupied. */
  type Row = seq<int>
  type Board = seq<Row>
  type Shape = seq<seq<int>>

  /** Top-left anchor of a piece; y may be negative while the piece enters. */
  datatype Position = Position(x: int, y: int)

  datatype Tetromino = Tetromino(kind: TetrominoType, shape: Shape, position: Position, color: string)

  /** Every row of the shape has as many cells as the first one. */
  predicate Rectangular(shape: Shape) {
    |shape| > 0 && forall i :: 0 <= i < |shape| ==> |shape[i]| == |shape[0]|
  }

  /** A rectangular shape with at least one column. */
  predicate WellShaped(shape: Shape) {
    Rectangular(shape) && |shape[0]| > 0
  }

  /** An n-by-n grid of 0/1 cells. */
  predicate SquareBitmap(shape: Shape, n: nat) {
    |shape| == n && forall i :: 0 <= i < n ==> |shape[i]| == n && forall j :: 0 <= j < n ==> shape[i][j] == 0 || shape[i][j] == 1
  }

  /** The side of the catalog square of each type. */
  function ShapeSize(t: TetrominoType): nat {
    match t
    case I => 4
    case O => 2
    case _ => 3
  }

  function TetrominoShape(t: TetrominoType): (shape: Shape)
    ensures SquareBitmap(shape, ShapeSize(t))
  {
    match t
    case I => [[0, 0, 0, 0], [1, 1, 1, 1], [0, 0, 0, 0], [0, 0, 0, 0]]
    case O => [[1, 1], [1, 1]]
    case T => [[0, 1, 0], [1, 1, 1], [0, 0, 0]]
    case S => [[0, 1, 1], [1, 1, 0], [0, 0, 0]]
    case Z => [[1, 1, 0], [0, 1, 1], [0, 0, 0]]
    case J => [[1, 0, 0], [1, 1, 1], [0, 0, 0]]
    case L => [[0, 0, 1], [1, 1, 1], [0, 0, 0]]
  }

  /** The display colour of each type, a CSS hex colour "#rrggbb". */
  function TetrominoColor(t: TetrominoType): (color: string)
    ensures |color| == 7 && color[0] == '#'
    ensures forall k :: 1 <= k < 7 ==> color[k] in "0123456789abcdef"
  {
    match t
    case I => "#00f0f0"
    case O => "#f0f000"
    case T => "#a000f0"
    case S => "#00f000"
    case Z => "#f00000"
    case J => "#0000f0"
    case L => "#f0a000"
  }
}

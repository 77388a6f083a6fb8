/**
 * Spawning and rotating pieces. The random choice of a type is supplied
 * by the caller as `draw`.
 */
module Pieces {
  import opened TetrisTypes

  /** The spawn column: the board's horizontal centre, shifted one to the left. */
  const SPAWN_X := BOARD_WIDTH / 2 - 1

  /** A fresh piece of the drawn type, with its catalog shape and colour, at the top centre. */
  function GetRandomTetromino(draw: TetrominoType): (p: Tetromino)
    ensures p.kind == draw && p.shape == TetrominoShape(draw) && p.color == TetrominoColor(draw)
    ensures p.position == Position(4, 0)
  {
    Tetromino(draw, TetrominoShape(draw), Position(SPAWN_X, 0), TetrominoColor(draw))
  }

  /** Column i of a rectangular shape, read from the top row down. */
  function Column(shape: Shape, i: nat): (col: seq<int>)
    requires Rectangular(shape) && i < |shape[0]|
  {
    seq(|shape|, k requires 0 <= k < |shape| => shape[k][i])
  }

  function Reverse(s: seq<int>): (r: seq<int>)
  {
    seq(|s|, k requires 0 <= k < |s| => s[|s| - 1 - k])
  }

  /**
   * The shape turned a quarter clockwise: the transpose of the shape with
   * each of its rows reversed. An h-by-w shape becomes w-by-h.
   */
  function RotateShape(shape: Shape): (r: Shape)
    requires Rectangular(shape)
    ensures |r| == |shape[0]|
    ensures forall i :: 0 <= i < |r| ==> |r[i]| == |shape|
    ensures forall i, j :: 0 <= i < |r| && 0 <= j < |shape| ==> r[i][j] == shape[|shape| - 1 - j][i]
    ensures WellShaped(shape) ==> WellShaped(r)
  {
    seq(|shape[0]|, i requires 0 <= i < |shape[0]| => Reverse(Column(shape, i)))
  }

  /** Rotation changes the shape only; type, position and colour are kept. */
  function RotatePiece(piece: Tetromino): (r: Tetromino)
    requires Rectangular(piece.shape)
    ensures r.kind == piece.kind && r.position == piece.position && r.color == piece.color
    ensures |r.shape| == |piece.shape[0]|
    ensures forall i :: 0 <= i < |r.shape| ==> |r.shape[i]| == |piece.shape|
    ensures forall i, j :: 0 <= i < |r.shape| && 0 <= j < |piece.shape| ==>
      r.shape[i][j] == piece.shape[|piece.shape| - 1 - j][i]
  {
    piece.(shape := RotateShape(piece.shape))
  }

  /** Four quarter turns give back the original shape. */
  lemma RotateFourTimes(shape: Shape)
    requires WellShaped(shape)
    ensures RotateShape(RotateShape(RotateShape(RotateShape(shape)))) == shape
  {
    var h, w := |shape|, |shape[0]|;
    var r1 := RotateShape(shape);
    var r2 := RotateShape(r1);
    var r3 := RotateShape(r2);
    var r4 := RotateShape(r3);
    assert |r4| == h;
    forall i | 0 <= i < h
      ensures r4[i] == shape[i]
    {
      forall j | 0 <= j < w
        ensures r4[i][j] == shape[i][j]
      {
        calc {
          r4[i][j];
          r3[w - 1 - j][i];
          r2[h - 1 - i][w - 1 - j];
          r1[w - 1 - (w - 1 - j)][h - 1 - i];
          shape[h - 1 - (h - 1 - i)][j];
        }
      }
    }
  }

  /** The four orientations a piece of type t can take, in clockwise order from the catalog shape. */
  function Orientations(t: TetrominoType): (os: seq<Shape>)
    ensures |os| == 4 && os[0] == TetrominoShape(t)
    ensures forall k :: 0 <= k < 4 ==> SquareBitmap(os[k], ShapeSize(t))
  {
    var s0 := TetrominoShape(t);
    var s1 := RotateShape(s0);
    var s2 := RotateShape(s1);
    var s3 := RotateShape(s2);
    SquareOfSquare(s0, ShapeSize(t));
    SquareOfSquare(s1, ShapeSize(t));
    SquareOfSquare(s2, ShapeSize(t));
    [s0, s1, s2, s3]
  }

  /** Rotating a square bitmap gives a square bitmap of the same size. */
  lemma SquareOfSquare(shape: Shape, n: nat)
    requires n > 0 && SquareBitmap(shape, n)
    ensures SquareBitmap(RotateShape(shape), n)
  {
  }

  /** Rotation never leaves the orientations of the piece's own type. */
  lemma RotateStaysInOrientations(t: TetrominoType, shape: Shape)
    requires shape in Orientations(t)
    ensures Rectangular(shape) && RotateShape(shape) in Orientations(t)
  {
    var os := Orientations(t);
    if shape == os[3] {
      RotateFourTimes(os[0]);
    }
  }

  /** Rotating a piece four times returns the original piece. */
  lemma RotatePieceFourTimes(piece: Tetromino)
    requires WellShaped(piece.shape)
    ensures RotatePiece(RotatePiece(RotatePiece(RotatePiece(piece)))) == piece
  {
    RotateFourTimes(piece.shape);
  }
}

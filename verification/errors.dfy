/** The error values of the game (src/errors.rs, src/model/coordinate.rs). */
module Errors {

  /** `u8`: board sizes and tile colours. */
  type U8 = x: nat | x < 256

  /** Every `CoordinateError` the source builds is `CoordinateError::default()`,
      so its fields carry no information. */
  datatype CoordinateError = CoordinateError

  /** Errors that game logic cannot resolve; the caller restarts the game. */
  datatype QueensError =
    | AreaNotFound(c: nat)
    | OutOfBounds(c: nat)
    | Invalid2DCoordinate(column: nat, row: nat, n: nat)
    | RefreshRequested
}

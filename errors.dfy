/** Failure kinds raised by the matrix engine, the polynomial type and the
    Hermite generator, and the Result type that carries them. */
module Errors {

  datatype Error =
    | NoFirstRow         // a grid with no rows: reading its first row fails
    | ShapeMismatch      // a grid whose rows differ in length
    | DimensionMismatch  // operands of add or multiply with incompatible shapes
    | InvalidShape       // a matrix with more than one column given as a polynomial
    | IndexOutOfRange    // a 1-indexed element access outside the matrix
    | InvalidArgument    // a Hermite index outside the accepted range

  datatype Result<T> = Ok(value: T) | Err(error: Error)
}

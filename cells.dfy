/** Values shared by every part of the model: a table cell that may be
    missing (pandas' NaN), and the usual Option / Result wrappers. */
module Cells {

  /** A numeric cell of a pandas frame: either a number or NaN (missing). */
  datatype Cell<T> = NaN | Num(value: T)

  datatype Option<T> = None | Some(value: T)

  datatype Result<T, E> = Success(value: T) | Failure(error: E)
}

/** Option and Result datatypes used throughout the model: `Option` stands for a
    pandas cell that may hold NaN ("missing"), `Result` for an operation that may
    raise. */
module Wrappers {

  /** A possibly missing cell value. */
  datatype Option<+T> = None | Some(value: T)

  /** The outcome of an operation that may fail with an error value. */
  datatype Result<+T, +E> = Ok(value: T) | Err(error: E)
}

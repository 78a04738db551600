/** Failure-carrying return values for the engine's operations. */
module Wrappers {

  /** An optional value; `None` stands for a bet input that does not parse to a number (NaN). */
  datatype Option<+T> = None | Some(value: T)

  /** The outcome of an operation that can be refused. */
  datatype Result<+T, +E> = Ok(value: T) | Err(error: E)
}

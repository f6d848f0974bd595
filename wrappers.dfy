/** The optional-value and result types shared by every module of the model. */
module Wrappers {

  /** An optional value; `None` stands for the null reference of the modelled code. */
  datatype Option<+T> = None | Some(value: T)

  /** A computation that either yields a value or reports a failure. */
  datatype Result<+T, +E> = Success(value: T) | Failure(error: E)
}

/** Failure-carrying result types shared by every module of the model. */
module Wrappers {

  /** A value that may be absent: Python's `Optional[T]`, or a nullable column. */
  datatype Option<+T> = None | Some(value: T)

  /** Either a success value or one of the module's named errors, in place of a raised exception. */
  datatype Result<+T, +E> = Ok(value: T) | Err(error: E)
}

/** Failure-carrying wrappers shared by every module of the model. */
module Wrappers {

  /** An optional value; Python's `None` or a present value. */
  datatype Option<+T> = None | Some(value: T)

  /** The outcome of an operation that the source may abort with an exception. */
  datatype Result<+T> = Ok(value: T) | Err(error: string)
}

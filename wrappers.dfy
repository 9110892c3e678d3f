/** Failure-carrying results shared by the other modules. */
module Wrappers {

  datatype Option<T> = None | Some(value: T)

  /** The outcome of an operation that returns nothing on success. */
  datatype Outcome<E> = Pass | Fail(error: E)

  datatype Result<T, E> = Ok(value: T) | Err(error: E)
}

/** Failure-carrying datatypes shared by the catalog modules. */
module Wrappers {

  datatype Option<+T> = None | Some(value: T)

  /** The outcome of an operation: the new value, or the reason it was refused. */
  datatype Result<+R, +E> = Success(value: R) | Failure(error: E)
}

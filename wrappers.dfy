/** Optional values and error results shared by the other modules. */
module Wrappers {

  /** A value that may be absent: a dictionary key that is missing, a file that does not exist. */
  datatype Option<+T> = None | Some(value: T)

  /** The outcome of an operation that the program aborts with an exception on failure. */
  datatype Result<+R, +E> = Success(value: R) | Failure(error: E)
}

/** Result types shared by every module. */
module Wrappers {

  /** Stands for a Go value that may be nil. */
  datatype Option<+T> = None | Some(value: T)

  /** Stands for a Go result paired with an error. */
  datatype Result<+T, +E> = Success(value: T) | Failure(error: E)
}

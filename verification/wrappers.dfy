/** The `Option` and `Result` types shared by every module of the model. */
module Wrappers {

  /** A value that may be missing; Python's `None` is `None`. */
  datatype Option<+T> = None | Some(value: T)

  /** Either a value or an error describing why there is none. */
  datatype Result<+T, +E> = Success(value: T) | Failure(error: E)
}

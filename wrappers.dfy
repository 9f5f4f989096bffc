/** Option and Result datatypes used by the extradata model. */
module Wrappers {

  /** A value that may be absent: an environment variable that is not set is `None`. */
  datatype Option<+T> = None | Some(value: T)

  /** The outcome of running the script: the printed value, or the error it raises. */
  datatype Result<+R, +E> = Success(value: R) | Failure(error: E)
}

/** Optional values and results with an error, shared by the other modules. */
module Wrappers {

  /** A value that may be absent; `None` also stands for JavaScript's `undefined`. */
  datatype Option<+T> = None | Some(value: T)

  /** Either a value or an error; the error side stands for a thrown exception. */
  datatype Result<+T, +E> = Success(value: T) | Failure(error: E)
}

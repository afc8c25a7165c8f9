/** Absent values and failing results, as the views return them. */
module Wrappers {

  /** A value that may be absent (Python's `None`). */
  datatype Option<+T> = None | Some(value: T)

  /** Either a computed value or a classified error. */
  datatype Result<+T, +E> = Success(value: T) | Failure(error: E)
}

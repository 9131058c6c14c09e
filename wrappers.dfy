/** Option and Result, for Python's `None` and for operations that raise. */
module Wrappers {

  /** `Optional[T]` in the source: a value or `None`. */
  datatype Option<+T> = None | Some(value: T)

  /** The outcome of an operation that either produces a value or raises. */
  datatype Result<+R, +E> = Success(value: R) | Failure(error: E)
}

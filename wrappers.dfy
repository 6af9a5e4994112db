/** Option and Result: the empty-or-value and error-or-value outcomes of the store and the service. */
module Wrappers {

  /** A lookup that may find nothing (an empty `Mono`). */
  datatype Option<+T> = None | Some(value: T)

  /** A call that either completes with a value or fails with an error (an errored `Mono`). */
  datatype Result<+R, +E> = Success(value: R) | Failure(error: E)
}

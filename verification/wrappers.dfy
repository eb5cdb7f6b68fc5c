/** Optional values and storage-call outcomes, shared by the whole model. */
module Wrappers {

  /** A value that may be absent: JavaScript's `undefined`/`null` on a field. */
  datatype Option<+T> = None | Some(value: T)

  /** The outcome of a storage call that can reject. */
  datatype Result<+R, +E> = Success(value: R) | Failure(error: E)
}

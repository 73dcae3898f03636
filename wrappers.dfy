/** Failure-carrying return values shared by the modules of this model. */
module Wrappers {

  datatype Option<T> = None | Some(value: T)

  /** The value of a call that either returns `value` or raises `error`. */
  datatype Result<T, E> = Success(value: T) | Failure(error: E)
}

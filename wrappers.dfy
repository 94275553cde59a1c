/** Failure-compatible wrappers shared by the build step and the dev server. */
module Wrappers {

  datatype Option<+T> = None | Some(value: T)

  /** The outcome of an operation that the source either returns from or throws out of. */
  datatype Result<+T, +E> = Ok(value: T) | Err(error: E)
}

/** Optional values and fallible replies shared by the history store and the token service. */
module Wrappers {

  /** An argument that may be absent, like TypeScript's `address?: string`. */
  datatype Option<+T> = None | Some(value: T)

  /** A reply that either carries a value or the error that made the call throw. */
  datatype Result<+T, +E> = Ok(value: T) | Err(error: E)
}

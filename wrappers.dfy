/** Optional values and results with a typed failure, used in place of the
    exceptions the store raises. */
module Wrappers {

  datatype Option<T> = None | Some(value: T)

  datatype Result<T, E> = Ok(value: T) | Err(error: E)

  /** The outcome of an operation that returns nothing when it succeeds. */
  datatype Outcome<E> = Pass | Fail(error: E)
}

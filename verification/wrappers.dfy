/** Optional values and success/failure results, used for the source's
    optional record fields and for the validators that throw on bad input. */
module Wrappers {

  /** An optional value: a JavaScript field that may be `undefined` or `null`. */
  datatype Option<+T> = None | Some(value: T)

  /** The outcome of an operation that either yields a value or fails with an error. */
  datatype Result<+R, +E> = Success(value: R) | Failure(error: E)
}

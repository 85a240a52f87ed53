/** Optional values, results and the error kinds that the model raises in place of Java's
    exceptions and null returns. */
module Wrappers {

  /** A value that may be absent: Java's `null` return of a lookup. */
  datatype Option<T> = None | Some(value: T)

  /** The two exception classes the modelled code throws. */
  datatype Error =
    | InvalidArgument(message: string)   // IllegalArgumentException
    | NullPointer                         // NullPointerException on a null receiver

  /** The value of a call that either returns or throws. */
  datatype Result<T> = Ok(value: T) | Err(error: Error)

  /** The outcome of a `void` call that either returns or throws. */
  datatype Outcome = Pass | Fail(error: Error)
}

/** Optional values and the success-or-error outcome of an operation that may raise. */
module Outcomes {

  /** A value that may be absent (a missing XML element or JSON key). */
  datatype Option<T> = None | Some(value: T)

  /** The outcome of a computation that, in the program, may raise an exception;
      `error` is the exception's message, `str(e)`. */
  datatype Result<T> = Ok(value: T) | Err(error: string)
}

/** Failure-compatible result types shared by the modules of this model. */
module Wrappers {

  /** A value that may be absent (a Java reference that may be null). */
  datatype Option<T> = None | Some(value: T)

  /** A computed value, or the exception the source would throw instead. */
  datatype Result<T, E> = Success(value: T) | Failure(error: E)

  /** The outcome of a step that computes no value but may throw. */
  datatype Outcome<E> = Pass | Fail(error: E)
}

/** Failure-carrying result types used where the Java code throws or returns an Optional. */
module Wrappers {

  /** An `Optional` of the source: absent or present. */
  datatype Option<T> = None | Some(value: T)

  /** A value, or the message of the exception the source throws instead. */
  datatype Result<T> = Success(value: T) | Failure(error: string)
}

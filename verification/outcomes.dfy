/** Failure-carrying wrappers shared by the model: an absent value and a
    success-or-error result, standing in for Java's `null` and exceptions. */
module Outcomes {

  /** A value that may be absent (a nullable Java reference). */
  datatype Option<+T> = None | Some(value: T)

  /** Either a successful value or the error the Java code would throw. */
  datatype Result<+T, +E> = Ok(value: T) | Err(error: E)
}

/** Option and Result values used in place of Java's null and thrown exceptions. */
module Wrappers {

  /** A value that may be absent: the model of a nullable Java reference. */
  datatype Option<+T> = None | Some(value: T)

  /** Either a value or the error that the Java code raises instead of returning one. */
  datatype Result<+R, +E> = Success(value: R) | Failure(error: E)
}

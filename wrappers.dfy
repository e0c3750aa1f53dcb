/** Failure-compatible result types used wherever the Java code throws. */
module Wrappers {

  /** A value that may be absent: Java's nullable reference. */
  datatype Option<+T> = None | Some(value: T)

  /** The value a Java method returns, or the exception it throws instead. */
  datatype Result<+R, +E> = Success(value: R) | Failure(error: E)

  /** The outcome of a Java method returning `void`: normal return or a thrown exception. */
  datatype Outcome<+E> = Pass | Fail(error: E)
}

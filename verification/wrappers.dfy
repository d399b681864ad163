/** Failure-carrying values: Java's `null` results and thrown exceptions become
    `None` and `Failure` here. */
module Wrappers {

  /** A value that may be absent, as a Java reference that may be `null`. */
  datatype Option<+T> = None | Some(value: T)

  /** Either a normal result or the exception that ended the computation. */
  datatype Result<+R, +E> = Success(value: R) | Failure(error: E)
}

/** Option and Result values standing in for Java's null returns and thrown exceptions. */
module Wrappers {

  /** A value or nothing; `None` models a Java method returning null or an empty Optional. */
  datatype Option<+T> = None | Some(value: T)

  /** A value or the exception a Java method would throw instead of returning. */
  datatype Result<+R, +E> = Success(value: R) | Failure(error: E)
}

/** The two sum types the model uses in place of Java's null and exceptions: a
    nullable value or an `Optional` becomes an Option, and a method that may throw
    returns a Result whose Failure side carries the exception. */
module Wrappers {

  /** A value that may be absent: a Java null or an empty Optional. */
  datatype Option<+T> = None | Some(value: T) {

    /** The wrapped value, or `default` when there is none (Java's `Optional.orElse`). */
    function GetOr(default: T): T {
      match this
      case Some(v) => v
      case None => default
    }
  }

  /** Either a computed value or the error that a Java method would have thrown. */
  datatype Result<+R, +E> = Success(value: R) | Failure(error: E)
}

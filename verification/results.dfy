/**
  Failure-carrying values shared by the whole model. A C# `null` becomes
  `None`, and a thrown exception that the caller sees becomes `Failure`.
 */
module Results {

  /** A value that may be absent (a nullable reference or `T?`). */
  datatype Option<+T> = None | Some(value: T) {

    /** The value if present, otherwise `default` (C#'s `??`). */
    function OrElse(default: T): T {
      match this
      case Some(v) => v
      case None => default
    }
  }

  /** The outcome of an operation that either returns a value or throws. */
  datatype Result<+T, +E> = Success(value: T) | Failure(error: E) {

    predicate IsFailure() {
      Failure?
    }

    function PropagateFailure<U>(): Result<U, E>
      requires Failure?
    {
      Failure(error)
    }

    function Extract(): T
      requires Success?
    {
      value
    }
  }
}

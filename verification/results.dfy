/** The two wrapper types the codec returns. */
module Results {

  /** A message, or the absence of one. */
  datatype Option<T> = None | Some(value: T)

  /** A decoded value, or the reason decoding stopped. `:-` on a `Failure`
      plays the part of a Kotlin exception leaving the expression. */
  datatype Result<T, E> = Success(value: T) | Failure(error: E) {

    predicate IsFailure() {
      Failure?
    }

    function PropagateFailure<U>(): Result<U, E>
      requires Failure?
    {
      Failure(error)
    }

    function Extract(): T
      requires Success?
    {
      value
    }
  }
}

/** Failure-carrying return values: the model's stand-in for the exceptions
    the automaton code raises. */
module Results {

  /** A value, or the error that was raised instead of producing it. */
  datatype Result<+T, +E> = Success(value: T) | Failure(error: E)

  /** A check that either passes silently or raises with an error. */
  datatype Outcome<+E> = Pass | Fail(error: E)
}

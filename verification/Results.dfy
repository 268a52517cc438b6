// Optional values and thrown exceptions.

module Results {

  /** A value that may be null or undefined in the program. */
  datatype Option<+T> = None | Some(value: T)

  /** The ways in which a modelled operation throws. */
  datatype Thrown =
    | DivisionByZero    // BigNumber.div with a zero divisor
    | EmptyReduce       // Array.reduce on an empty list without an initial value
    | UndefinedRequest  // a property of an undefined queue request is read
    | RpcFailure        // a contract or node call rejects

  /** What a call returns, or the exception it throws. */
  datatype Result<+T> = Success(value: T) | Failure(error: Thrown) {

    predicate IsFailure() {
      Failure?
    }

    function PropagateFailure<U>(): Result<U>
      requires Failure?
    {
      Failure(error)
    }

    function Extract(): T
      requires Success?
    {
      value
    }
  }
}

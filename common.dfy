/** Python-level values every module of the catalog shares: values that may be
    None, the exceptions the code raises, and readings of the clock. */
module Common {

  /** A value that may be Python's None. */
  datatype Option<+T> = None | Some(value: T)

  /** The exceptions the catalog code raises, by Python class and message. */
  datatype Exception =
    | ValueError(message: string)
    | RuntimeError(message: string)
    | AttributeError(message: string)

  /** The outcome of a call that returns a value or raises. */
  datatype Result<+T> = Success(value: T) | Failure(error: Exception) {
    predicate IsFailure() { Failure? }

    function PropagateFailure<U>(): Result<U>
      requires Failure?
    {
      Failure(error)
    }

    function Extract(): T
      requires Success?
    {
      value
    }
  }

  /** The outcome of a call that returns None or raises (a property setter). */
  datatype Outcome = Pass | Fail(error: Exception)

  /** A reading of `datetime.now()`; the catalog only copies and compares them. */
  type Timestamp = int
}

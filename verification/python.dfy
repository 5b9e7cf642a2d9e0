/** The few Python runtime notions the handlers depend on: the exceptions
    their statements can raise, and a failure-compatible result type that
    carries either a value or the exception that interrupted the computation. */
module Python {

  /** The exception classes that the handshake code can raise.
      UnboundLocalError is the NameError raised when a local is read before
      any branch assigned it; OSError stands for socket.gaierror as well;
      SystemExit is what sys.exit raises. */
  datatype PyError = ValueError | TypeError | OSError | UnboundLocalError | SystemExit

  /** Either a value, or the exception raised while computing it. */
  datatype Result<+T> = Ok(value: T) | Raise(error: PyError) {

    predicate IsFailure() {
      Raise?
    }

    function PropagateFailure<U>(): Result<U>
      requires Raise?
    {
      Raise(error)
    }

    function Extract(): T
      requires Ok?
    {
      value
    }
  }

  /** Python's None, or a present value. */
  datatype Option<+T> = None | Some(value: T)
}

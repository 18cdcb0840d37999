/** Failure-carrying result types shared by the whole model. A Python
    exception that a function raises is modelled as an `Err` carrying the
    kind of exception; the value a function returns is an `Ok`. */
module Wrappers {

  datatype Option<+T> = None | Some(value: T) {
    function GetOr(default: T): T {
      match this
      case Some(v) => v
      case None => default
    }
  }

  /** The built-in exception classes the modelled code raises. */
  datatype ErrorKind =
    | ValueError
    | TypeError
    | RuntimeError
    | KeyError
    | AttributeError

  datatype Result<+T> = Ok(value: T) | Err(error: ErrorKind) {
    predicate IsFailure() { Err? }
    function PropagateFailure<U>(): Result<U>
      requires Err?
    {
      Err(error)
    }
    function Extract(): T
      requires Ok?
    {
      value
    }
  }
}

/** Failure-carrying results shared by every module, and the Python exception
    kinds the modelled code can raise. */
module Wrappers {

  datatype Option<+T> = None | Some(value: T)

  datatype Result<+T, +E> = Success(value: T) | Failure(error: E) {
    predicate IsFailure() { Failure? }
    function PropagateFailure<U>(): Result<U, E>
      requires Failure?
    {
      Failure(error)
    }
    function Extract(): T
      requires Success?
    {
      value
    }
  }

  /** A result that carries no value: Python's `-> None` that may raise. */
  datatype Outcome<+E> = Pass | Fail(error: E)

  /** The exceptions raised along the modelled paths. */
  datatype Error =
    | ValueError(msg: string)
    | IndexError
    | KeyError(key: string)
    | TypeError               // `bytearray += None` after a timeout while a line is open
    | UnicodeDecodeError      // `bytes.decode("ascii")` met a byte above 0x7f
    | UnicodeEncodeError      // `str.encode("ascii")` met a character above U+007F
    | UnboundLocalError(name: string)
    | AttributeError(name: string)
}

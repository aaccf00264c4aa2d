/** Failure-carrying datatypes shared by every module: Python's `None` becomes
    `Option`, and a raised exception becomes an `Err` carrying the exception's class. */
module Wrappers {

  datatype Option<+T> = None | Some(value: T) {
    function GetOr(default: T): T {
      match this
      case Some(v) => v
      case None => default
    }
  }

  /** The exception classes the modelled code raises or lets escape. The
      messages keep the source's fixed wording; interpolated numbers and paths are dropped. */
  datatype Error =
    | ValueError(msg: string)
    | RuntimeError(msg: string)
    | FileNotFoundError(msg: string)
    | AttributeError(msg: string)
    | IndexError(msg: string)
    | IsADirectoryError(msg: string)
    | IntegrityError(msg: string)
    | ProviderError(msg: string)   // anything an injected embedder or extractor raises

  datatype Result<+T> = Ok(value: T) | Err(error: Error) {
    predicate IsFailure() { Err? }
    function PropagateFailure<U>(): Result<U>
      requires Err?
    {
      Err(error)
    }
    function Extract(): T
      requires Ok?
    {
      value
    }
  }

  /** A result without a value: Python code that returns None or raises. */
  datatype Outcome = Pass | Fail(error: Error) {
    predicate IsFailure() { Fail? }
    function PropagateFailure<U>(): Result<U>
      requires Fail?
    {
      Err(error)
    }
  }
}

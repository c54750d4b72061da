/** Failure-carrying result types shared by every module of the model. */
module Wrappers {

  /** A value that may be absent: the model's rendering of a C# null reference. */
  datatype Option<+T> = None | Some(value: T)

  /** The outcome of an operation that may throw: `Fail` names the exception. */
  datatype Result<+T> = Ok(value: T) | Fail(error: Error)
  {
    predicate IsFailure() { Fail? }

    function PropagateFailure<U>(): Result<U>
      requires Fail?
    {
      Fail(error)
    }

    function Extract(): T
      requires Ok?
    {
      value
    }
  }

  /** The exceptions the modelled code raises or lets escape. */
  datatype Error =
    | InvalidMethodBody        // de4dot's InvalidMethodBody (IOException is mapped to it)
    | IOError                  // an IOException / EndOfStreamException raised by a reader
    | InvalidOperation         // System.InvalidOperationException
    | IndexOutOfRange          // System.IndexOutOfRangeException / ArgumentOutOfRangeException
    | ApplicationError         // System.ApplicationException
    | FormatError              // System.FormatException
    | ArgumentError            // System.ArgumentException
    | KeyNotFound              // System.Collections.Generic.KeyNotFoundException
    | NullReference            // System.NullReferenceException
    | DivideByZero             // System.DivideByZeroException
}

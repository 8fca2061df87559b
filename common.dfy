/** Shared vocabulary: the C# exceptions the modelled code can raise, and
    the Result/Outcome wrappers that carry them instead of a thrown exception. */
module Common {

  /** The runtime exceptions that the modelled members can raise. */
  datatype Exception =
    | NullReference        // a member accessed through a null reference
    | IndexOutOfRange      // an array or list index outside its bounds
    | ArgumentOutOfRange   // an enum value that no switch arm handles
    | Failed(message: string)  // a plain `throw new Exception(...)`

  /** A value, or the exception raised while computing it. */
  datatype Result<T> = Success(value: T) | Failure(error: Exception)

  /** A value that may be absent (a C# reference that may be null). */
  datatype Option<T> = None | Some(value: T)

  /** Completion of a void member: normal return, or the exception raised. */
  datatype Outcome = Pass | Fail(error: Exception)

  /** A subscriber callback (one C# delegate). Only its identity matters to
      the modelled code: it is stored in listener lists, removed again by
      identity, and named in the logs of the calls it received. */
  class Handler {
    constructor () {}
  }
}

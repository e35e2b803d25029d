/** Shared vocabulary: bytes, optional values, and the exceptions the core raises. */
module Common {

  /** One octet of a Python 2 byte string. */
  type byte = x: int | 0 <= x < 256

  datatype Option<+T> = None | Some(value: T) {
    function GetOr(default: T): T {
      match this
      case Some(v) => v
      case None => default
    }
  }

  /** The Python exceptions the modelled code raises, one constructor each. */
  datatype Error =
    | StructError          // struct.error: bad format, wrong type or range, short buffer, wrong arity
    | InvalidReturnCount   // unpacked item count differs from total_fields
    | IndexError           // too many positional arguments
    | TypeError            // iterating a value that is not iterable
    | AttributeError       // attribute of None
    | InvalidFieldName     // unknown keyword argument
    | UnterminatedString   // a NUL-terminated string with no NUL before the end of the data
    | UnboundLocalError    // a local read before it was ever assigned

  datatype Result<+T> = Success(value: T) | Failure(error: Error) {
    predicate IsFailure() { Failure? }

    function PropagateFailure<U>(): Result<U>
      requires Failure?
    {
      Failure(error)
    }

    function Extract(): T
      requires Success?
    {
      value
    }
  }
}

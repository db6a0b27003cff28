/** Option and Result for the C# null values and thrown exceptions of the modelled code. */
module Wrappers {

  datatype Option<+T> = None | Some(value: T) {
    function GetOr(default: T): T {
      match this
      case Some(v) => v
      case None => default
    }
  }

  /** The .NET exceptions the modelled members can throw, one constructor per kind. */
  datatype Exception =
    | ArgumentNull(paramName: string)         // ArgumentNullException
    | ArgumentEmpty(paramName: string)        // ArgumentException from ThrowIfNullOrEmpty
    | ArgumentOutOfRange                      // ArgumentOutOfRangeException
    | IndexOutOfRange                         // IndexOutOfRangeException
    | Format                                  // FormatException (invalid base64)
    | DivideByZero                            // DivideByZeroException
    | Crypto                                  // decryption of the application id failed
    | Sql(reason: string)                     // SqlException raised by the database
    | IO                                      // IOException from the file system
    | RuntimeBinder                           // RuntimeBinderException: null read into an int through dynamic

  /** The range of a C# int (System.Int32). */
  const IntMin: int := -0x8000_0000
  const IntMax: int := 0x7FFF_FFFF

  predicate IsInt(n: int) {
    IntMin <= n <= IntMax
  }

  /** C# int arithmetic outside a checked context: the result wraps around modulo 2^32. */
  function Wrap(n: int): (r: int)
    ensures IsInt(r)
    ensures IsInt(n) ==> r == n
    ensures n > IntMax && n <= 2 * IntMax ==> r == n - 0x1_0000_0000
  {
    (n - IntMin) % 0x1_0000_0000 + IntMin
  }

  datatype Result<+T> = Ok(value: T) | Err(error: Exception) {
    predicate IsFailure() {
      Err?
    }

    function PropagateFailure<U>(): Result<U>
      requires Err?
    {
      Err(error)
    }

    function Extract(): T
      requires Ok?
    {
      value
    }
  }
}

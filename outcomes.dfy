/** Exceptions raised by the simulation library, and result wrappers for the
    operations that may raise them. */
module Outcomes {

  /** The .NET exceptions that the library can raise, plus the two limits that
      the model introduces for loops the library runs without a bound. */
  datatype Error =
    | ArgumentError        // System.ArgumentException
    | ArgumentOutOfRange   // System.ArgumentOutOfRangeException
    | IndexOutOfRange      // System.IndexOutOfRangeException (array access)
    | Overflow             // System.OverflowException (negative array size)
    | NullReference        // System.NullReferenceException (unset array slot)
    | NotEnoughNodes       // the plain System.Exception thrown by Message
    | Exhausted            // the model's finite supply of random samples ran out
    | OutOfFuel            // the model's step bound was reached
    | NaN                  // a double division 0.0 / 0.0, which yields NaN without raising

  datatype Result<T> = Ok(value: T) | Err(error: Error)

  /** A reference that may be null, such as an unset array slot. */
  datatype Option<T> = None | Some(value: T)

  /** Result of an operation that returns nothing (a C# void method). */
  datatype Outcome = Success | Failure(error: Error)
}

/** Option and Result wrappers, and the exception kinds the modelled code can raise. */
module Wrappers {

  datatype Option<+T> = None | Some(value: T)

  /** A computation that either returns a value or throws one of the exceptions below. */
  datatype Result<+R, +E> = Success(value: R) | Failure(error: E)

  /** The .NET exception types thrown by the modelled code. */
  datatype Exception =
    | ArgumentNull        // ArgumentNullException
    | Argument            // ArgumentException (duplicate key, undefined enum name)
    | KeyNotFound         // KeyNotFoundException
    | InvalidOperation    // InvalidOperationException (unsupported storage kind)
    | Overflow            // OverflowException (checked conversion, negative array size)
    | Format              // FormatException (string is not a number)
    | InvalidCast         // InvalidCastException (Boolean to Char)
    | IndexOutOfRange     // IndexOutOfRangeException
    | NullReference       // NullReferenceException
}

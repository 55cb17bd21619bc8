/** Failure reporting shared by every module: the exceptions the library throws become values. */
module Errors {

  /** The kinds of exception the modelled code can throw. */
  datatype Error =
    | DivisionByZero      // ArithmeticException("Division by zero!")
    | NumberFormat        // NumberFormatException from parseString (a lone sign)
    | InvalidDigit        // a character that is not a digit of the requested base
    | IndexOutOfBounds    // indexing past the end of a string or an array
    | Overflow            // more than 8 bytes handed to a ULong decoder
    | ExponentOutOfRange  // toStringExpanded with an exponent above Int.MAX_VALUE
    | NotImplemented      // a TODO() body is reached (rounding of decimals)

  datatype Result<+T> = Ok(value: T) | Err(error: Error)
}

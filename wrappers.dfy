/** Option and Result, the failure-carrying types every module below returns. */
module Wrappers {

  datatype Option<+T> = None | Some(value: T)

  datatype Result<+T, +E> = Success(value: T) | Failure(error: E)

  /** Success or failure of an operation that returns nothing. */
  datatype Outcome<+E> = Pass | Fail(error: E)

  /** A PHP number: an `int` or a `float` (the latter as an exact real). */
  datatype Number = Int(i: int) | Float(x: real)
}

/** The exceptions the library throws, as values. */
module Errors {

  datatype Error =
    | UnrecognizedUnit(unitString: string)   // unit string matches no alias list
    | CouldNotParse(input: string)           // size string matches no pattern
    | MissingUnit(value: real)               // fractional byte count without a unit
    | PrecisionNotInteger                    // asAuto given a precision that is not an int
    | DivisionByZero                         // divide(0): PHP's DivisionByZeroError
}

/** The exceptions the library throws, as values. */
module Exceptions {

  datatype Error =
    | NegativeResult
    | DecrementOfZero
    | SameQuotientAndRemainder
    | DivisionByZero
    | PathologicalShift
    | TooBigForType
    | ZeroSignForNonzero
    | AliasedOutputs
    | CommonFactor
    | BaseTooSmall
    | BaseTooLarge
    | DigitTooLarge
    | BadSymbol
    | PathError

  /** How a call without a result ends. */
  datatype Status = Done | Thrown(error: Error)

  /** How a call with a result ends. */
  datatype Result<+T> = Ok(value: T) | Err(error: Error)
}

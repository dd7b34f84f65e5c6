/** The failures the engines signal: C++ exceptions, exit(1), and the input
    errors that the programs report before computing anything. */
module Outcomes {

  datatype Error =
    | DivisionByZero      // runtime_error / invalid_argument on a zero divisor, exit(1)
    | InvalidDigit        // a character that is not a digit of the expected kind
    | OutOfRange          // an int argument outside the range a routine accepts
    | NotSingleDigit      // to_int on a value with more than one digit
    | GenerationExhausted // no candidate passed within the allowed attempts

  datatype Result<T> = Ok(value: T) | Err(error: Error)

  datatype Option<T> = None | Some(value: T)
}

/**
  Failure-compatible result values and the two argument errors the library
  raises. CrcSharp throws `ArgumentOutOfRangeException` and
  `ArgumentNullException` naming the offending argument; the model returns
  the same information as a value.
*/
module Wrappers {

  /** A value that may be absent, standing for a possibly-null reference argument. */
  datatype Option<+T> = None | Some(value: T)

  datatype Result<+R, +E> = Success(value: R) | Failure(error: E) {
    predicate IsFailure() {
      Failure?
    }

    function PropagateFailure<U>(): Result<U, E>
      requires Failure?
    {
      Failure(error)
    }

    function Extract(): R
      requires Success?
    {
      value
    }
  }

  /** The argument an exception names. */
  datatype Argument =
    | WidthArgument
    | PolynomialArgument
    | InitialValueArgument
    | XorOutValueArgument
    | ParametersArgument
    | DataArgument

  datatype Error =
    | ArgumentOutOfRange(argument: Argument)
    | ArgumentNull(argument: Argument)
}

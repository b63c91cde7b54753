/** The encoder's error taxonomy and the result types its operations return. */
module Errors {

  /** The errors the encoder returns (`EncoderError`). */
  datatype EncoderError =
    | FloatNotSupported
    | NotSupported
    | Custom(message: string)

  /** How an encoding attempt ends without output: with a returned error, or
      at one of the `todo!()` placeholders, which panic instead of returning. */
  datatype Failure =
    | Error(error: EncoderError)
    | Unimplemented

  /** The outcome of an encoding step; usable with `:-`. */
  datatype Result<+T> = Ok(value: T) | Fail(failure: Failure) {

    predicate IsFailure() {
      Fail?
    }

    function PropagateFailure<U>(): Result<U>
      requires Fail?
    {
      Fail(failure)
    }

    function Extract(): T
      requires Ok?
    {
      value
    }
  }
}

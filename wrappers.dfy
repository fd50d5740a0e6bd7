/** Option and Result values, and the error conditions of the column layer. */
module Wrappers {

  datatype Option<+T> = None | Some(value: T)

  datatype Result<+T, +E> = Ok(value: T) | Err(error: E)

  /** The error conditions a DateTime64 column reports to its caller. */
  datatype Error =
    | TypeDescriptorError(token: string)      // type name not of the form DateTime64(p), 0 <= p <= 9
    | TimeParseError(text: string, index: nat) // text row `index` matches none of the accepted forms
    | TypeMismatch(index: nat)                // native value `index` is not a time instant
    | UnexpectedEndOfStream                   // the decoder ran out of 64-bit words
    | OutOfRange(index: nat)                  // projection of an element at or past the length
}

/** Option and Result values, and the error kinds the notation compiler raises. */
module Outcome {

  datatype Option<+T> = None | Some(value: T)

  /** The three failure sites of the compiler, each with the payload of its message. */
  datatype Error =
    | LexError(position: nat, ch: char)   // illegal character, 1-based position
    | InvalidGroup(group: string)           // group length outside {1, 2, 3, 4, 6}
    | UnknownNote(ch: char)               // character outside {D, U, R, _} inside a group

  datatype Result<+T> = Ok(value: T) | Err(error: Error)
}

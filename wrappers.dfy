/** Option and Result values standing in for Java's null and thrown exceptions. */
module Wrappers {

  /** A reference that may be null. */
  datatype Option<+T> = None | Some(value: T)

  /** The exceptions the core can throw, one constructor per kind of throw site. */
  datatype Error =
    | LengthMismatch    // matchWord: guess and answer differ in length
    | IllegalGuess      // WordleAnswer.makeGuess: the dictionary rejects the guess
    | IndexOutOfBounds  // replaceCharAt: index outside the string
    | NoCandidates      // makeGuess with no candidate left: get(0) on an empty list

  /** A value, or the exception that replaced it. */
  datatype Result<+T> = Ok(value: T) | Err(error: Error)
}

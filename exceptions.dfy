/**
 * The values a JavaScript `throw` can carry, as far as the vault's
 * `catch` blocks inspect them: an `Error` object (with its `name` and
 * `message`), or something that is not an `Error`.
 */
module Exceptions {

  datatype Thrown = ErrorObject(name: string, message: string) | NonError

  /** `new Error(message)`. */
  function PlainError(message: string): Thrown {
    ErrorObject("Error", message)
  }

  /** The DOMException `atob` throws on text that is not base64. */
  const AtobInvalidCharacter: Thrown :=
    ErrorObject("InvalidCharacterError", "The string to be decoded is not correctly encoded.")

  /** The DOMException `btoa` throws on a character above U+00FF. */
  const BtoaInvalidCharacter: Thrown :=
    ErrorObject("InvalidCharacterError", "The string to be encoded contains characters outside of the Latin1 range.")
}

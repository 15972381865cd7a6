/** Option and Result values, and the two ways a call into code outside the
    model can end (it returns or it throws). */
module Wrappers {

  datatype Option<+T> = None | Some(value: T) {
    /** The value, or `default` when there is none (JavaScript's `x || default` on an optional object). */
    function GetOr(default: T): T {
      match this
      case Some(v) => v
      case None => default
    }
  }

  /** The `Result` of the neverthrow library: `ok(value)` or `err(error)`. */
  datatype Result<+T, +E> = Ok(value: T) | Err(error: E)

  /** A value thrown by JavaScript code. An `Error` instance carries a
      message; any other thrown value does not. */
  datatype Thrown = ErrorInstance(message: string) | OtherValue(description: string)

  /** How a call into code the model does not see ends: it returns a value or
      throws (for an awaited promise: it resolves or rejects). */
  datatype Completion<+T> = Normal(value: T) | Throw(thrown: Thrown)
}

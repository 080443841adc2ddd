/** Values shared by every part of the user service model: optional values
    (JavaScript's `undefined` versus a present value), the errors a request
    can end with, and the result of an operation together with the store it
    leaves behind. */
module Common {

  /** A JavaScript value that is either `undefined` (None) or present. */
  datatype Option<+T> = None | Some(value: T)

  /** The ways a request can fail.  An ApiError is thrown by the service's own
      code and carries the HTTP status it chose; the other variants are
      exceptions raised by the language runtime, the JWT library or the
      database layer, whose HTTP status is decided by the framework's error
      handler and is not part of this model. */
  datatype Error =
    | ApiError(status: int, message: string)
    | TypeError                   // a property read on `undefined`
    | ValidationError             // a schema `required` rule failed
    | DuplicateKey                // a unique index refused the write
    | DocumentNotFound            // a save of a record that is gone
    | JwtError(message: string)   // the JWT library refused a token
    | QueryError(message: string) // the database refused a query

  /** The outcome of a step: a value, or the error it failed with. */
  datatype Result<+T> = Ok(value: T) | Err(error: Error)

  /** A successful HTTP reply: its status code and its body. */
  datatype Reply<+T> = Reply(status: int, body: T)

  /** JavaScript truthiness of an optional string: present and non-empty. */
  predicate Truthy(s: Option<string>) {
    s.Some? && s.value != ""
  }
}

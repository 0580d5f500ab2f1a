/** Values shared by every part of the backend: optional values, the error
    messages of the error-message table, and the outcome of a flow. */
module Common {

  /** A value that may be absent (`null` or `undefined` in the source). */
  datatype Option<T> = None | Some(value: T) {
    function GetOr(default: T): T {
      if Some? then value else default
    }
  }

  /** The messages the services attach to the exceptions they throw. */
  datatype Message =
    | EmailExists          // registration with an email already in use
    | InvalidCredentials   // unknown email or wrong password, deliberately alike
    | AccessDenied         // refresh credential absent or not matching
    | RefreshTokenMissing  // no bearer token on the refresh route
    | UserNotFound
    | UserUnauthorized     // neither the account itself nor an admin
    | BoardNotFound
    | BoardUnauthorized    // not the board's owner

  /** Faults raised by the relational store rather than by the services. */
  datatype StoreFault =
    | DuplicateEmail       // the unique index on the email column
    | DataTooLong          // a value wider than its varchar column
    | MissingOwner         // the foreign key from a board to its user

  /** How a flow fails: one of the framework's HTTP exceptions with its
      message, or a store fault that surfaces as a server error. */
  datatype Failure =
    | Conflict(message: Message)       // HTTP 409
    | Unauthorized(message: Message)   // HTTP 401
    | NotFound(message: Message)       // HTTP 404
    | Store(fault: StoreFault)         // HTTP 500

  datatype Result<T> = Ok(value: T) | Err(error: Failure)
}

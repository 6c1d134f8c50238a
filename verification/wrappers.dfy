/** Option and Result, the failure-carrying datatypes used throughout the model. */
module Wrappers {

  /** A value that may be absent: Java's `null` / `Optional.empty()`. */
  datatype Option<+T> = None | Some(value: T)

  /** The outcome of an operation that either returns a value or raises. */
  datatype Result<+T, +E> = Ok(value: T) | Err(error: E)
}

/** The failure outcomes the core can raise. */
module Errors {

  /**
   * One constructor per `ExceptionMessages` constant the core throws, plus
   * `DataIntegrityViolation` for an insert that a unique column rejects.
   */
  datatype ErrorCode =
    | UserAlreadyExists
    | RoleNotFound
    | UserNotFound
    | AccountNotEnabled
    | AccountLocked
    | TooManyAttempts
    | InvalidCredentials
    | InvalidToken
    | TokenWasRevoked
    | TokenExpired
    | TokenNotBelongToUser
    | FailedToGetExpirationTime
    | DataIntegrityViolation
}

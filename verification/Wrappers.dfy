/** Failure-compatible results and the library's error values (error.go). */
module Wrappers {

  datatype Option<+T> = None | Some(value: T)

  datatype Result<+T> = Ok(value: T) | Err(error: Error)

  /** The sentinel errors returned by the modelled functions. */
  datatype Error =
    | ErrInvalidSecret
    | ErrInvalidDigits
    | ErrInvalidAlgorithm
    | ErrInvalidCounter
    | ErrInvalidTime
    | ErrDstTooSmall
    | ErrInvalidMigration
}

/** The result shapes and the error values shared by every component
    (provider/types.go:11-18). */
module Wrappers {
  datatype Option<+T> = None | Some(value: T)

  datatype Result<+T, +E> = Ok(value: T) | Err(error: E)

  datatype Error =
    | ErrInvalidRequest
    | ErrChallengeFailed
    | ErrSubjectDenied
    | ErrUnavailable
    | ErrContextInvalid
    | ErrContextExpired
}

/** The shapes of the ledger's error returns. */
module Wrappers {

  /** A value that may be absent, as a failed login. */
  datatype Option<+T> = None | Some(value: T)

  /** A value or the reason there is none, as a KeyError's missing key. */
  datatype Result<+R, +E> = Success(value: R) | Failure(error: E)
}

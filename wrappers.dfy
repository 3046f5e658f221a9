/** Failure-carrying values shared by the other modules: `Option` for the
    Python code's `None` returns, `Result` for operations that raise. */
module Wrappers {

  datatype Option<+T> = None | Some(value: T)

  datatype Result<+T, +E> = Success(value: T) | Failure(error: E)

  /** A result that carries no value on success. */
  datatype Outcome<+E> = Ok | Fail(error: E)
}

/** Octets, as the decoders of the authorization header see them. */
module Bytes {
  type Byte = x: int | 0 <= x < 256
}

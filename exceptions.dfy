/** The Python exceptions that numpy and chainer raise in the modelled code,
    and a result type that carries either a value or the exception raised. */
module Exceptions {

  /** Only the kind of exception is modelled, not its message. `InvalidType`
      is chainer's type-check failure (`chainer.utils.type_check.InvalidType`). */
  datatype Exception = IndexError | ValueError | AssertionError | InvalidType

  datatype Result<+T> = Ok(value: T) | Raise(exc: Exception)
}

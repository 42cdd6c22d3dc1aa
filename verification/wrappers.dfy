/** Result values standing in for the exceptions the toolkit throws. */
module Wrappers {

  datatype Option<T> = None | Some(value: T)

  datatype Result<T, E> = Success(value: T) | Failure(error: E)

  /** The error taxonomy: a channel or file that cannot be opened, a protocol
      rule broken (double registration), an argument out of range (the number
      of poker players), and a rejection-sampling search whose candidates ran out. */
  datatype Error =
    | ResourceError
    | ProtocolViolation
    | InvalidArgument
    | KeyGenerationExhausted
}

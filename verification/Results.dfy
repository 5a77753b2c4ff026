/** Results of operations that may throw in the emulator: a value, or the kind of exception. */
module Results {

  /** The C++ exception kinds thrown by the modelled code. */
  datatype Error =
    | OutOfRange
    | InvalidArgument
    | LogicError
    | LengthError
    | RuntimeError
    | OverflowError
    | BadAlloc

  datatype Option<+T> = None | Some(value: T)

  datatype Result<+T> = Ok(value: T) | Err(error: Error)
}

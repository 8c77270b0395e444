/** The optional value used wherever the interpreter may have nothing to return. */
module Options {

  datatype Option<+T> = None | Some(value: T)

  /** Either a value or the reason there is none. */
  datatype Result<+T, +E> = Success(value: T) | Failure(error: E)
}

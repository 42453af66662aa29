/** Option and Result datatypes used by the maze model. */
module Options {

  datatype Option<T> = None | Some(value: T)

  /** A value, or the message of the error the constructor raises. */
  datatype Result<T> = Success(value: T) | Failure(message: string)
}

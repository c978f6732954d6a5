/** Optional values and results with an error message, shared by the other modules. */
module Results {

  datatype Option<+T> = None | Some(value: T)

  /** A computation that either produces a value or stops the program with a message. */
  datatype Result<+T> = Success(value: T) | Failure(error: string)
}

/** Failure-carrying result types shared by every module of the model. */
module Results {

  datatype Option<+T> = None | Some(value: T)

  /** The outcome of an operation that can fail: either a value or an error. */
  datatype Result<+T, +E> = Ok(value: T) | Err(error: E)
}

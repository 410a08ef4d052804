/** Failure-carrying wrappers shared by the query engine model. */
module Results {

  /** A value that may be absent. */
  datatype Option<+T> = None | Some(value: T)

  /** Either a value or an error; the engine reports every failure through one of these. */
  datatype Result<+T, +E> = Success(value: T) | Failure(error: E)
}

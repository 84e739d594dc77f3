/** Failure-compatible result types shared by the whole model. */
module Results {
  /** A value, or the reason why there is none. */
  datatype Result<+T, +E> = Success(value: T) | Failure(error: E)

  datatype Option<+T> = None | Some(value: T)
}

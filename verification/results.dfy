/** Failure-carrying wrappers used by the store and its views. */
module Results {

  /** An optional value, used for "the entry has no id yet". */
  datatype Option<+T> = None | Some(value: T)

  /** The outcome of an operation that can fail with an error value. */
  datatype Result<+T, +E> = Success(value: T) | Failure(error: E)
}

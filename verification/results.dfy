/** Failure-carrying values used across the model: an absent value and an
    operation that either succeeds or fails with a typed error. */
module Results {

  datatype Option<+T> = None | Some(value: T)

  datatype Result<+R, +E> = Success(value: R) | Failure(error: E)
}

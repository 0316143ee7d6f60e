/** Outcome types shared by the model: an optional value, and a value-or-error result
    standing in for a Java call that either returns or throws. */
module Results {

  datatype Option<+T> = None | Some(value: T)

  datatype Result<+T, +E> = Success(value: T) | Failure(error: E)
}

/** The error path of an operation that can stop with an error. */
module Results {

  datatype Result<+T, +E> = Success(value: T) | Failure(error: E)
}

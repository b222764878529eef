/** The outcome of an operation that either returns a value or throws an
    ArgumentException; a failure keeps the exception's message. */
module Results {

  datatype Result<T> = Success(value: T) | Failure(message: string)
}

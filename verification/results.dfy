/** Failure-carrying values shared by every module of the model: Ruby's `nil`
    becomes `None`, and a raised exception becomes `Failure`. */
module Results {

  datatype Option<+T> = None | Some(value: T)

  datatype Result<+T, +E> = Success(value: T) | Failure(error: E)
}

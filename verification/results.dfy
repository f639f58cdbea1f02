/** Failure-carrying values shared by every module of the model: Python's
    `None` and raised exceptions become `None` and `Failure`. */
module Results {

  datatype Option<T> = None | Some(value: T)

  datatype Result<T, E> = Success(value: T) | Failure(error: E)
}

/** Optional values and results with an error, used where the application
    either has no value (an unselected dropdown, a failed network call) or
    raises an error to the user interface. */
module Common {

  datatype Option<+T> = None | Some(value: T)

  datatype Result<+T, +E> = Success(value: T) | Failure(error: E)
}

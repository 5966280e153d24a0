/** Values standing in for the program's fatal exits and uncaught exceptions:
    every configuration error is returned instead of terminating the process. */
module Results {

  datatype Result<+T, +E> = Ok(value: T) | Err(error: E)

  datatype Option<+T> = None | Some(value: T)
}

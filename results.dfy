/** Outcomes of operations that can fail, instead of Python's exceptions and exit(). */
module Results {

  datatype Option<+T> = None | Some(value: T)

  datatype Result<+T, +E> = Ok(value: T) | Err(error: E)
}

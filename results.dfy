/** Optional values and outcomes that may fail, for the places where the
    Python code reads a missing value or raises. */
module Results {

  datatype Option<T> = None | Some(value: T)

  datatype Result<T, E> = Ok(value: T) | Err(error: E)
}

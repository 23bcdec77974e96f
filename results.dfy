/** Optional values and results with an error, shared by all modules. */
module Results {
  datatype Maybe<T> = None | Some(value: T)

  datatype Result<T, E> = Ok(value: T) | Fail(error: E)
}

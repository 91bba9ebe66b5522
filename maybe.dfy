/** Optional values (Python's `Optional[...]` / `None`) and results with an error side. */
module Maybe {

  datatype Option<T> = None | Some(value: T)

  datatype Result<T, E> = Ok(value: T) | Err(error: E)
}

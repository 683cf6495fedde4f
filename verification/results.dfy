/** The outcome of an operation that may throw in index.ts. */
module Results {

  datatype Result<T, E> = Ok(value: T) | Err(error: E)
}

/** Optional values and the one domain error of the cart manager. */
module Results {

  datatype Option<T> = None | Some(value: T)

  /** A ResponseStatusException with status NOT_FOUND and its reason text. */
  datatype Error = NotFound(reason: string)

  /** The outcome of an operation that returns a value or throws NotFound. */
  datatype Result<T> = Ok(value: T) | Err(error: Error)

  /** The outcome of an operation that returns nothing or throws NotFound. */
  datatype Outcome = Pass | Fail(error: Error)
}

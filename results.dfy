/** Optional values and the outcome of an operation that can fail with a message.
    Java's `null` becomes `None`; an `IllegalArgumentException(msg)` becomes `Err(msg)`. */
module Results {

  datatype Option<+T> = None | Some(value: T)

  datatype Result<+T> = Ok(value: T) | Err(error: string)
}

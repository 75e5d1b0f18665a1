/** Result and Option values, standing for Go's `(value, error)` pairs and optional values. */
module Results {

  datatype Option<+T> = None | Some(value: T)

  datatype Result<+T, +E> = Ok(value: T) | Err(error: E)
}

/** Absence and failure values: Java's `null` / `Optional` and thrown exceptions. */
module Results {

  datatype Option<+T> = None | Some(value: T)

  datatype Result<+T, +E> = Ok(value: T) | Err(error: E)
}

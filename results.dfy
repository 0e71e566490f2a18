// Outcome types shared by the parser and the geometry reconstruction.
module Results {

  /** A value that may be absent (the source's `null` and `int?`). */
  datatype Option<+T> = None | Some(value: T)

  /** The outcome of an operation that can raise an exception in the source.
      Every exception ends the conversion the same way, so failures carry no payload. */
  datatype Result<+T> = Ok(value: T) | Err
}

/** The exceptions the scripts can raise, and the wrappers that carry them. */
module Results {

  /** The Python exception classes that reach the modelled code. */
  datatype Error = KeyError | IndexError | ValueError | TypeError

  /** A value, or the exception raised instead of producing it. */
  datatype Result<+T> = Ok(value: T) | Err(error: Error)

  /** Python's `None` or a present value. */
  datatype Option<+T> = None | Some(value: T)
}

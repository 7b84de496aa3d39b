/** Small helper datatypes shared by the whole model. */
module Common {
  /** Python's `None` versus a present value. */
  datatype Option<T> = None | Some(value: T)

  /** A value, or the exception Python would raise instead. */
  datatype Result<T> = Ok(value: T) | Err(error: string)
}

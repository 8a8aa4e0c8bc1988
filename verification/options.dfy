/** Option and Result: the nullable handle, the `Option<Box<_>>` slot and the
    outcome of a call, as plain datatypes. */
module Options {

  /** `None` plays the role of a null pointer or an emptied `Option`. */
  datatype Option<+T> = None | Some(value: T)

  /** The outcome of an operation that may fail with an error of type `E`. */
  datatype Result<+T, +E> = Ok(value: T) | Err(error: E)
}

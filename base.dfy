/** Small result types shared by the whole model. */
module Base {

  /** A value that may be absent, as Python's `None`. */
  datatype Option<+T> = None | Some(value: T)

  /** The Python exceptions that escape from the modelled code. */
  datatype Error =
    | KeyError      // a DataFrame has no `tags` column
    | NameError     // `__file__` is not defined in the running module

  datatype Result<+T> = Ok(value: T) | Err(error: Error)
}

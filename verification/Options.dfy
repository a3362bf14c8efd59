/** Success, failure and absence, as the source's `Option` and `Result` carry them. */
module Options {

  datatype Option<+T> = None | Some(value: T)

  datatype Result<+T, +E> = Ok(value: T) | Err(error: E)
}

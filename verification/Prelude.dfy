/** Result shapes shared by every component. */
module Prelude {

  datatype Option<+T> = None | Some(value: T)

  /** A computed value, or the exception the program raises instead. */
  datatype Result<+T, +E> = Ok(value: T) | Err(error: E)
}

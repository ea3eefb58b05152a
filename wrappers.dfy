/** Absent values and failing results, in place of JavaScript's `null`, `{}` and thrown errors. */
module Wrappers {

  datatype Option<T> = None | Some(value: T)

  datatype Result<T, E> = Ok(value: T) | Err(error: E)
}

/** Option and Result as the model uses them: Rust's `Option`, and the outcome of a
    computation that may panic (`Err` carries the reason of the panic). */
module Wrappers {
  datatype Option<+T> = None | Some(value: T)

  datatype Result<+R, +E> = Ok(value: R) | Err(error: E)
}

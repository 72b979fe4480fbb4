/** Failure-carrying datatypes shared by the rest of the model. */
module Wrappers {

  /** An optional value. Used for the overflow-checked arithmetic of a debug
      build: `None` stands for the panic that `usize` overflow raises there. */
  datatype Option<+T> = None | Some(value: T)

  /** Rust's `Result<T, E>`. */
  datatype Result<+T, +E> = Ok(value: T) | Err(error: E)
}

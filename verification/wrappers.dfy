/** Failure-carrying datatypes shared by every module of the model. */
module Wrappers {

  /** An optional value: Rust's `Option`. */
  datatype Option<+T> = None | Some(value: T)

  /** A value or an error: Rust's `Result`, and also the model of a panic. */
  datatype Result<+T, +E> = Ok(value: T) | Err(error: E)
}

/** Bytes as 8-bit vectors, so that the word-parallel code can be stated over `bv64`. */
module Bytes {

  type Byte = bv8
}

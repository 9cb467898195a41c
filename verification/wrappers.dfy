/** The success-or-error value that the Rust code returns from `Config::build` and `run`. */
module Wrappers {

  datatype Result<+T, +E> = Ok(value: T) | Err(error: E)
}

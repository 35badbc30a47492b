/** Failure-carrying return values, used where the program prints a
    diagnostic and calls `exit(1)`. */
module Wrappers {

  datatype Option<+T> = None | Some(value: T)

  datatype Result<+T, +E> = Ok(value: T) | Err(error: E)
}

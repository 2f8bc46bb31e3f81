/** Failure-carrying results, used instead of the source's `-1` returns plus an
    `errno` side channel. */
module Wrappers {

  /** Either a value or the reason there is none. */
  datatype Result<+T, +E> = Ok(value: T) | Err(error: E)
}

/** The failure-carrying result used wherever the source returns `Err`
    or aborts with a panic. */
module Wrappers {

  datatype Result<T, E> = Ok(value: T) | Err(error: E)
}

/** Option and Result, used wherever the source returns `Option`, returns `Result`
    or aborts on a checked condition. */
module Wrappers {
  datatype Option<T> = None | Some(value: T)

  datatype Result<T, E> = Ok(value: T) | Err(error: E)
}

/** Failure-carrying results for the operations that can fail: a lookup that may
    find nothing, and a run that may stop with an error. */
module Outcomes {

  datatype Option<T> = None | Some(value: T)

  datatype Result<T, E> = Ok(value: T) | Err(error: E)
}

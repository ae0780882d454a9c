/** The two result shapes the models share: a value that may be missing and a
    call that may fail with a reason. */
module Outcomes {
  datatype Option<+T> = None | Some(value: T)

  datatype Result<+T, +E> = Ok(value: T) | Err(error: E)
}

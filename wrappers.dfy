/** Option and result values shared by the modules. */
module Wrappers {

  datatype Option<+T> = None | Some(value: T)

  /** A computation that either produced a value or stopped with the message
      of the Python exception or error record it ended in. */
  datatype Result<+T> = Ok(value: T) | Err(error: string)
}

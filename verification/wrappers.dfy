/** Failure-carrying result types shared by the modules of the model. */
module Wrappers {

  datatype Option<+T> = None | Some(value: T)

  /** Either a value or the process exit status the program stops with. */
  datatype Result<+R> = Ok(value: R) | Err(status: int)
}

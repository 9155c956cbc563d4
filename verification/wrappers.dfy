/** Failure-carrying wrappers shared by the whole model.  A JavaScript
    `throw new Error(msg)` is modelled as `Err(msg)`. */
module Wrappers {

  datatype Option<+T> = None | Some(value: T)

  datatype Result<+T> = Ok(value: T) | Err(message: string)
}

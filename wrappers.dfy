/** Option and Result values standing in for JavaScript's `null`/`undefined`
    and for thrown errors. */
module Wrappers {

  datatype Option<+T> = None | Some(value: T)

  /** `Err` carries the message of a JavaScript `Error`. */
  datatype Result<+R> = Ok(value: R) | Err(message: string)
}

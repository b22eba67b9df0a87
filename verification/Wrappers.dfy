/** Outcomes of calls that the program may abandon by throwing. */
module Wrappers {

  datatype Option<+T> = None | Some(value: T)

  /** `Err` carries the code of the error thrown. */
  datatype Result<+T> = Ok(value: T) | Err(code: string)
}

/** Failure-carrying results shared by the parsers and the aggregator. */
module Wrappers {

  datatype Option<+T> = None | Some(value: T)

  /** `Ok(value)` or `Err(message)`: `Err` stands for a thrown `Error` and carries its message. */
  datatype Result<+T> = Ok(value: T) | Err(message: string)
}

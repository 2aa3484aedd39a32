/** Results of operations that can panic or fail. */
module Outcomes {
  datatype Outcome<+T> = Ok(value: T) | Panic

  datatype Option<+T> = None | Some(value: T)

  datatype Result<+T> = Success(value: T) | Failure
}

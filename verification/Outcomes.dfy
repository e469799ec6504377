/** Values that may be absent, and results that may be a refusal. */
module Outcomes {
  datatype Option<+T> = None | Some(value: T)

  datatype Result<+T, +E> = Ok(value: T) | Err(error: E)

  // a statistic asked for arguments it is not defined on
  datatype StatError = BadArguments
}

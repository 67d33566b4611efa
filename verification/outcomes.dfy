/** Failure-carrying results. The source signals failure by raising Python
    exceptions; the model keeps only the exception class, which is what a
    caller can tell apart. */
module Outcomes {

  /** The Python exception classes the modelled code can raise. */
  datatype Error = ValueError | TypeError | IndexError

  datatype Option<+T> = None | Some(value: T)

  datatype Result<+T> = Ok(value: T) | Err(error: Error)
}

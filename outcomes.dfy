/** Failure-compatible return values shared by the modules of this project. */
module Outcomes {
  /** A value that may be absent, standing for a Java `null` or a missing result. */
  datatype Option<T> = None | Some(value: T)

  /** The Java exceptions that the modelled operations throw on bad input. */
  datatype Error = IllegalArgument(message: string)

  /** Either a value or the exception a Java method would throw instead. */
  datatype Result<T> = Success(value: T) | Failure(error: Error)
}

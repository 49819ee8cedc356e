/**
 * Results of operations that can stop the run with SU2_MPI::Error: the
 * error message is carried as a value instead of terminating.
 */
module Outcome {

  /** A value, or the fatal error that prevented computing it. */
  datatype Result<T> = Ok(value: T) | Fatal(message: string)

  /** A state-changing operation that ran to the end, or stopped on a fatal error. */
  datatype Status = Completed | Aborted(message: string)
}

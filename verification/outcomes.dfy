/** Success/failure carriers shared by the divider, the apply adapter and the
    execute expansion. Every thread of the library is modelled as a plain call,
    so a panic inside a worker becomes a failure value instead of an unwind. */
module Outcomes {

  /** The outcome of one worker: `None` when the worker panicked. */
  datatype Option<+T> = None | Some(value: T)

  /** The outcome of a whole fork-join call. */
  datatype Result<+T, +E> = Ok(value: T) | Err(error: E)

  /** The two ways `divide` and `apply` can panic. */
  datatype Failure =
    | InvalidGranularity   // the `granularity > 0` assertion fired
    | WorkerFailure        // some chunk worker panicked; its join reported it
}

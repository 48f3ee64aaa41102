/** Option and Result values, and the failures an operation of the client can end in. */
module Outcomes {

  datatype Option<+T> = None | Some(value: T)

  /** How a filesystem call that does not return normally ends. */
  datatype Failure =
    | NotFound     // FileNotFoundException thrown by getFileStatus
    | Fault        // a RuntimeException: null or short response line, missing or unparsable field
    | IOFailure    // an IOException thrown by create or open
    | Diverged     // unbounded recursion (a StackOverflowError, which is not an Exception)

  datatype Result<+T> = Ok(value: T) | Err(failure: Failure)
}

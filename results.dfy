/** Failure-carrying result types used where the C# code throws or has no answer. */
module Results {

  datatype Option<+T> = None | Some(value: T)

  datatype Result<+T, +E> = Ok(value: T) | Err(error: E)

  /** The result of a step that either goes on or stops with an error. */
  datatype Outcome<+E> = Pass | Fail(error: E)
}

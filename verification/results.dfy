/** Small failure-carrying datatypes shared by the other modules. */
module Results {

  /** A value that may be absent, e.g. the result of parsing text that is not a number. */
  datatype Option<+T> = None | Some(value: T)

  /** The verdict of a check: it passed, or it failed with an error value. */
  datatype Outcome<+E> = Pass | Fail(error: E)
}

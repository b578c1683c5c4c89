/** Option and Outcome values for the places where the Python code returns
    None or stops the run with an error message. */
module Wrappers {

  datatype Option<+T> = None | Some(value: T)

  /** Pass, or the first error the run would stop on. */
  datatype Outcome<+E> = Pass | Fail(error: E)
}

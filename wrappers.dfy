/** Small failure-carrying datatypes shared by the other modules. */
module Wrappers {

  datatype Option<+T> = None | Some(value: T)

  /** Success or failure of an operation that returns nothing else. */
  datatype Outcome<+E> = Pass | Fail(error: E)
}

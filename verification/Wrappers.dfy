/** What several parts use for a value that may be missing, and for a call that may not end well. */
module Wrappers {

  datatype Option<+T> = None | Some(value: T)

  /**
   `Undefined`: the code follows a pointer that is null or was never set,
   divides by zero, or calls a library outside its contract.
   */
  datatype Outcome = Returned(code: int) | Undefined
}

/** Optional values and the two ways a JavaScript expression can complete. */
module Wrappers {

  datatype Option<+T> = None | Some(value: T)

  /** The result of evaluating JavaScript code: it either completes normally with a
      value, or it throws (a TypeError from reading a property of null, calling a
      method a value does not have, or an exception raised by a native binding). */
  datatype Completion<+T> = Normal(value: T) | Throw
}

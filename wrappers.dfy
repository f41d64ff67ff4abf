/** Small result types shared by the other modules. */
module Wrappers {

  /** The value a C# query returns, or `null`: Some or None. */
  datatype Option<+T> = None | Some(value: T)

  /** The outcome of a call that does not catch the store's exceptions:
      either it returns a value, or the exception propagates to the caller. */
  datatype Outcome<+T> = Returned(value: T) | Raised
}

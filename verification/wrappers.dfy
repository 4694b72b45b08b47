/** Result shapes shared by the search: Python's None, and a call that may not return. */
module Wrappers {

  /** Python's `None` or a value. */
  datatype Option<+T> = None | Some(value: T)

  /** The outcome of a loop run with a fuel bound: it returned `value`, or the bound ran out first. */
  datatype Outcome<+T> = Returned(value: T) | OutOfFuel
}

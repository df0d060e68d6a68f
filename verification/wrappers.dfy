/** A minimal optional-value datatype used by the argument store. */
module Wrappers {

  /** Either nothing, or one value. */
  datatype Option<+T> = None | Some(value: T)
}

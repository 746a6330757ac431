/** The optional value used for addresses that may be null. */
module Wrappers {

  /** `None` plays the role of the null pointer. */
  datatype Option<+T> = None | Some(value: T)
}

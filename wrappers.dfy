/** The optional value used for the source's NULL results and failed asserts. */
module Wrappers {
  datatype Option<+T> = None | Some(value: T)
}

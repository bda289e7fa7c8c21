/** The optional-value wrapper used for nil results and for unset ordering hooks. */
module Wrappers {
  datatype Option<+T> = None | Some(value: T)
}

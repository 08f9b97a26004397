/** An optional value: a form field or a completion field that may be absent. */
module Wrappers {
  datatype Option<+T> = None | Some(value: T)
}

/** The optional value of a form field or a configuration entry that may be absent. */
module Wrappers {

  datatype Option<+T> = None | Some(value: T)
}

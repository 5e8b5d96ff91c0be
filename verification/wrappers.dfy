/** The optional value used for form fields that start out as JavaScript `null`. */
module Wrappers {

  datatype Option<+T> = None | Some(value: T)
}

/** The optional value used where the handler works with `null`. */
module Wrappers {

  datatype Option<+T> = None | Some(value: T)
}

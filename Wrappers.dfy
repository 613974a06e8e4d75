/** The optional result used where the library returns `T | undefined`. */
module Wrappers {

  datatype Option<+T> = None | Some(value: T)
}

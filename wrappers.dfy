/** Option, used where the source returns a NULL pointer on failure. */
module Wrappers {

  datatype Option<+T> = None | Some(value: T)
}

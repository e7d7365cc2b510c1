/** Option, standing for an option value that may be missing or falsy. */
module Wrappers {

  datatype Option<+T> = None | Some(value: T)
}

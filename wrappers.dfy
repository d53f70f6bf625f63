/** Option, for the JavaScript values that are either something or null/undefined. */
module Wrappers {

  datatype Option<+T> = None | Some(value: T)
}

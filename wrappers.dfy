/** An optional value, for the key search that gives up instead of looping. */
module Wrappers {

  datatype Option<+T> = None | Some(value: T)
}

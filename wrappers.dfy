/** An optional value: the outcome of a step that may yield nothing. */
module Wrappers {

  datatype Option<+T> = None | Some(value: T)
}

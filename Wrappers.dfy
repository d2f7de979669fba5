/** The optional value used for a timer's end time. */
module Wrappers {

  datatype Option<+T> = None | Some(value: T)
}

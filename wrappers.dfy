/** The optional value used wherever the reminder module works with `null`. */
module Wrappers {

  datatype Option<+T> = None | Some(value: T)
}

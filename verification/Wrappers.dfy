/** A value that may be absent: a null of the source, or a text that holds no number. */
module Wrappers {

  datatype Option<+T> = None | Some(value: T)
}

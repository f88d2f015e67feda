/** The optional result of a lookup: a miss is `None`, a hit carries the value. */
module Wrappers {

  datatype Option<+T> = None | Some(value: T)
}

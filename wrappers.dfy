/** The optional value that `Array.prototype.find` and similar lookups return. */
module Wrappers {

  datatype Option<+T> = None | Some(value: T)
}

/** The optional value used for every cell, parse result and query result that may be missing. */
module Wrappers {

  datatype Option<+T> = None | Some(value: T)
}

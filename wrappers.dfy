/** The optional value used for query results and for "no rejection". */
module Wrappers {
  datatype Option<+T> = None | Some(value: T)
}

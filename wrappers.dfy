/** Optional values, standing for SQL NULL columns and for "no row found". */
module Wrappers {
  datatype Option<+T> = None | Some(value: T)
}

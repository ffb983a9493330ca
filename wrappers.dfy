/** Optional values: a key of a JSON error report is either present with a value or absent. */
module Wrappers {

  datatype Option<+T> = None | Some(value: T)
}

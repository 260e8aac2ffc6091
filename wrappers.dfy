/** Optional values: the model's stand-in for a query that may find no document. */
module Wrappers {

  datatype Option<+T> = None | Some(value: T)
}

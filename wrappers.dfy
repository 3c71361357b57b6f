/** Optional values: a SQL NULL column, a missing punch, a JSON null. */
module Wrappers {

  datatype Option<+T> = None | Some(value: T)
}

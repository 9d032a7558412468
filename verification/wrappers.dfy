/** Optional values: a SQL NULL, a missing session key, a lookup that found no row. */
module Wrappers {

  datatype Option<+T> = None | Some(value: T)
}

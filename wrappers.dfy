/** Optional values: a SQL NULL, a `fetchone()` that found no row, a Python `None`. */
module Wrappers {

  datatype Option<+T> = None | Some(value: T)
}

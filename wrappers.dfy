/** Optional values: a SQL NULL, a missing query parameter, a row that `fetchone()` did not find. */
module Wrappers {

  datatype Option<+T> = None | Some(value: T)
}

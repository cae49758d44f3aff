/** Optional values: a missing table cell (pandas NaN) or a failed parse. */
module Wrappers {

  datatype Option<+T> = None | Some(value: T)

}

/** Optional values, used wherever the page reads a JavaScript value that may be missing. */
module Wrappers {
  datatype Option<+T> = None | Some(value: T)
}

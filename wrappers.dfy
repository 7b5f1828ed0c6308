/** Optional values, as `Option` is used by the timing entries and the parsers. */
module Wrappers {

  datatype Option<+T> = None | Some(value: T)
}

/** Optional values, used for JavaScript array holes and for parsers that may fail. */
module Wrappers {

  datatype Option<+T> = None | Some(value: T)
}

/** Optional values, used for the tool's optional arguments and for lookups that can fail. */
module Wrappers {

  datatype Option<+T> = None | Some(value: T)
}

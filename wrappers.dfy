/** Optional values: a field that may be absent (`undefined`) in the configuration. */
module Wrappers {

  datatype Option<+T> = None | Some(value: T)
}

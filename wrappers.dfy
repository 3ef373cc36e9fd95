/** Optional values: a field accessor yields `None` where the item has no value. */
module Wrappers {

  datatype Option<+T> = None | Some(value: T)
}

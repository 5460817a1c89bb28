/** Optional values: the model's stand-in for a Python `None` return. */
module Wrappers {

  datatype Option<+T> = None | Some(value: T)
}

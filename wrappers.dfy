/** Optional values: Python's `None`, or a key that `.get` does not find. */
module Wrappers {

  datatype Option<+T> = None | Some(value: T)

}

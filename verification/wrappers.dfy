/** Optional values, used for every oracle that may fail (an exception in the
    original program becomes `None`). */
module Wrappers {

  datatype Option<+T> = None | Some(value: T)
}

/** Optional values, used where the source returns `None` or a dictionary lookup can miss. */
module Wrappers {

  datatype Option<+T> = None | Some(value: T)
}

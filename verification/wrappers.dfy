/** Optional values, as the source's `None` results. */
module Wrappers {

  datatype Option<+T> = None | Some(value: T)

}

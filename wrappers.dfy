/** Optional values, used where a read of the stage can fail to produce a value. */
module Wrappers {

  datatype Option<+T> = None | Some(value: T)
}

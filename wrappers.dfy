/** Optional values, used for "nothing was written" and "no restart happened". */
module Wrappers {
  datatype Option<+T> = None | Some(value: T)
}

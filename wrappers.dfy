/** Optional values, used wherever the modelled code may have nothing to give. */
module Wrappers {
  datatype Option<+T> = None | Some(value: T)
}

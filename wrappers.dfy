/** Optional values, for layers a frame may or may not carry. */
module Wrappers {

  datatype Option<+T> = None | Some(value: T)
}

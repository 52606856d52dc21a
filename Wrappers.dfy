/** Optional values: a sprite reference that may be null in the game. */
module Wrappers {

  datatype Option<+T> = None | Some(value: T)
}

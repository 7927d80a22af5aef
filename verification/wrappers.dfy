/** Optional values, used for the apple slot of the game. */
module Wrappers {

  datatype Option<+T> = None | Some(value: T)
}

/** Optional values: JavaScript's `undefined` where the game code tolerates it. */
module Wrappers {

  datatype Option<+T> = None | Some(value: T)
}

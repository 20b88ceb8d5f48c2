/** Optional values: JavaScript's `null` / `undefined` and "no result". */
module Wrappers {

  datatype Option<+T> = None | Some(value: T)
}

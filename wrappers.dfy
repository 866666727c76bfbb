/** Optional values: an argument left `undefined` in the TypeScript source is `None` here. */
module Wrappers {

  datatype Option<+T> = None | Some(value: T)
}

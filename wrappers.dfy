/** Optional results: the model's stand-in for a JavaScript `null` or `undefined` return. */
module Wrappers {

  datatype Option<+T> = None | Some(value: T)
}

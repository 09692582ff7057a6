/** Optional values: the model's rendering of JavaScript's `undefined` for a field or a search result. */
module Wrappers {

  datatype Option<+T> = None | Some(value: T)
}

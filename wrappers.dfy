/** Optional values, for JavaScript's `undefined`/`null`/`NaN` results. */
module Wrappers {
  datatype Option<+T> = None | Some(value: T)
}

/** Optional values: a JavaScript `null` / `NaN` / missing entry is `None`. */
module Wrappers {

  datatype Option<+T> = None | Some(value: T)
}

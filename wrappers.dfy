/** Optional values: a JavaScript `undefined` or `null` result becomes `None`. */
module Wrappers {

  datatype Option<+T> = None | Some(value: T)
}

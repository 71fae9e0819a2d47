/** Optional values, used where a JavaScript value may be absent or null. */
module Wrappers {

  datatype Option<+T> = None | Some(value: T)

}

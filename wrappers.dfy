/** Optional value, used for "found at offset k" / "not found". */
module Wrappers {

  datatype Option<+T> = None | Some(value: T)

}

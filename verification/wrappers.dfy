/** Optional values, used for "a field has at most one error message". */
module Wrappers {

  datatype Option<+T> = None | Some(value: T)

}

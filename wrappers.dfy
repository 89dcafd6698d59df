/** Optional values: the source's `null` (an unset hover selection, a missing related element). */
module Wrappers {

  datatype Option<+T> = None | Some(value: T)
}

/** Optional values, used for the source's sentinel results (`-1`, `null`, `NaN`). */
module Wrappers {
  datatype Option<+T> = None | Some(value: T)
}

/** Optional values, for the places where the editor may or may not produce something. */
module Wrappers {
  datatype Option<+T> = None | Some(value: T)
}

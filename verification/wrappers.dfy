/** Optional values: an element that may be missing from the page, or a
    search that may find nothing. */
module Wrappers {

  datatype Option<+T> = None | Some(value: T)
}

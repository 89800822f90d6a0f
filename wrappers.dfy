/** Optional values, used for the page's "may fail" results (a NaN number, a
    pattern that does not match, a URI component that does not decode). */
module Wrappers {
  datatype Option<+T> = None | Some(value: T)
}

/** Optional values, used for DOM elements that may be missing, for the URL
    parser's answer and for parse results. */
module Wrappers {

  datatype Option<+T> = None | Some(value: T)
}

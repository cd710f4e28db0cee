/** Optional values, used for the audio element's `src` before the first load
    and for the result of parsing a time string. */
module Wrappers {
  datatype Option<+T> = None | Some(value: T)
}

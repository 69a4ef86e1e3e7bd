/** Optional values: the model's stand-in for JavaScript's `null` / `undefined`
    and for a URIError thrown by the URI decoder. */
module Wrappers {

  datatype Option<+T> = None | Some(value: T)
}

/** A value that may be missing: a JSON key that is absent, or a parse that failed. */
module Wrappers {

  datatype Option<+T> = None | Some(value: T)

}

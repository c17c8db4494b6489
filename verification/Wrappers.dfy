/** A value that may be missing, where the source has NULL or a flag. */
module Wrappers {

  datatype Option<T> = None | Some(value: T)
}

/** Small helper types shared by every module of the model. */
module Wrappers {
  /** A value that may be missing: an undefined property, a NULL pointer, an absent key. */
  datatype Option<T> = None | Some(value: T)
}

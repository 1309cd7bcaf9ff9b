/** The optional value used for absent arguments and rejected frames. */
module Wrappers {
  datatype Option<T> = None | Some(value: T)
}

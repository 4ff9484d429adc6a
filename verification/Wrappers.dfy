module Wrappers {
  /** A value that may be absent; also stands for the source's thrown `out_of_range`. */
  datatype Option<+T> = None | Some(value: T)
}

/** The optional value used for absent session keys, failed downloads and missing JSON fields. */
module Wrappers {
  datatype Option<+T> = None | Some(value: T)
}

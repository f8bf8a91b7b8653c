/** The optional value used for nullable fields and "not found" lookups. */
module Wrappers {
  datatype Option<+T> = None | Some(value: T)
}

/** The optional value used for map lookups and for the tombstoned alien slots. */
module Wrappers {
  datatype Option<T> = None | Some(value: T)
}

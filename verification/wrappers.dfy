/** The "not found" signal of the account store's lookups, which return null in the source. */
module Wrappers {

  datatype Option<+T> = None | Some(value: T)

}

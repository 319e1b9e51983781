/** The "not found" signal of the source's lookups (a null reference there). */
module Wrappers {

  datatype Option<+T> = None | Some(value: T)
}

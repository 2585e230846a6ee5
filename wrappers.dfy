/** The optional value used for lookups, query parameters and the selected request. */
module Wrappers {

  datatype Option<+T> = None | Some(value: T)
}

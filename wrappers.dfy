/** The optional value used for `Option<Cell>` and for parse results. */
module Wrappers {
  datatype Option<+T> = None | Some(value: T)
}

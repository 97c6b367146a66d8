/** Option: the explicit "not found" result that replaces Java's null returns. */
module Wrappers {
  datatype Option<+T> = None | Some(value: T)
}

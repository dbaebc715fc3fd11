/** The optional-value datatype shared by the decimal parser and the action table. */
module Wrappers {

  /** A value that may be absent; `None` stands for a failed parse or an out-of-range ordinal. */
  datatype Option<+T> = None | Some(value: T)
}

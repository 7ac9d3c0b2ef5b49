/** The optional-value datatype standing for the source's nullable values. */
module Wrappers {

  /** A value that may be absent; stands for a field or getter that can be `null`. */
  datatype Option<+T> = None | Some(value: T)
}

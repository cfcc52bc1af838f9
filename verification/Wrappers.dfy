/** Small shared datatypes. */
module Wrappers {
  datatype Option<+T> = None | Some(value: T)

  /** A memory cell that is copied in more than one step: in between it holds nothing readable. */
  datatype Slot<+T> = Torn | Whole(value: T)
}

/** Small shared result types. */
module Wrappers {
  datatype Option<+T> = None | Some(value: T)

  /** What a cursor-advancing reader returns: the value read and the cursor after it. */
  datatype Read<+T> = Fail | Done(value: T, next: nat)
}

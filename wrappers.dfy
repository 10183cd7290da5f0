/** The absent-or-present value used for C's NULL returns and failing system calls. */
module Wrappers {
  datatype Option<+T> = None | Some(value: T)
}

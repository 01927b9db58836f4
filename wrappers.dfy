/** The absent-or-present value used wherever the bot works with `null`. */
module Wrappers {
  datatype Option<+T> = None | Some(value: T)
}

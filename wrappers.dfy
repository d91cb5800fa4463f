/** Python's `None`-or-value, used for the optional `loop_size` and `to_rank`. */
module Wrappers {

  datatype Option<+T> = None | Some(value: T)
}

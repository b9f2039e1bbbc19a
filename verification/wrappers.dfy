/** The usual optional value: `None` stands for Python's `None` or an absent key/file. */
module Wrappers {
  datatype Option<+T> = None | Some(value: T)
}

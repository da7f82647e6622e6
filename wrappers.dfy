/** The optional value used for missing environment variables, missing keys and unreadable files. */
module Wrappers {
  datatype Option<+T> = None | Some(value: T)
}

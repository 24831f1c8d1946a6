/** The optional value used for nullable references such as a comment's parent. */
module Wrappers {

  datatype Option<+T> = None | Some(value: T)
}

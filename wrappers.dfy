/** Option stands in for C#'s nullable references: None is `null`. */
module Wrappers {

  datatype Option<+T> = None | Some(value: T)
}

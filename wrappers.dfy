/** Swift's `Optional`, as the model uses it. */
module Wrappers {

  datatype Option<+T> = None | Some(value: T)
}

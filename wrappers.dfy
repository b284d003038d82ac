/** Option, the conventional stand-in for Ruby's `nil`. */
module Wrappers {

  datatype Option<+T> = None | Some(value: T)
}

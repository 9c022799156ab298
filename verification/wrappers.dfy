/** The optional value used in place of Ruby's `nil`. */
module Wrappers {

  datatype Option<+T> = None | Some(value: T)
}

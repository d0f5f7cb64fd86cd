/** The optional value the source writes as a Python `None` or a present value. */
module Wrappers {

  datatype Option<T> = None | Some(value: T)
}

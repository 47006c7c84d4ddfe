/** The optional value used wherever the Python code either produces a value
    or raises (an exception is modelled as `None`). */
module Wrappers {

  datatype Option<+T> = None | Some(value: T)
}

/** The Some/None datatype used wherever the server returns `None` or a value
    may be absent. */
module Wrappers {

  datatype Option<+T> = None | Some(value: T)
}

/** A value that may be absent: Python's `None` next to a `str`. */
module Wrappers {

  datatype Option<+T> = None | Some(value: T)

}

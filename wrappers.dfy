/** The optional value used for JSON keys that may be absent and for remote
    calls that may fail (Python's `None`). */
module Wrappers {

  datatype Option<+T> = None | Some(value: T)
}

/** The optional value used for a tile match that may be missing (Python's None). */
module Wrappers {

  datatype Option<+T> = None | Some(value: T)
}

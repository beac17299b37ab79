/** The optional value used across the model: a missing dictionary key,
    a Python `None`, or a search that finds nothing. */
module Wrappers {

  datatype Option<+T> = None | Some(value: T)
}

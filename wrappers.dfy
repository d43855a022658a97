/** The optional-value datatype used for Python's "falsy sentinel or value" returns. */
module Wrappers {

  datatype Option<+T> = None | Some(value: T)
}

/** The optional-value datatype used for absent JavaScript values and for
    the nullable React state fields. */
module Wrappers {
  datatype Option<+T> = None | Some(value: T)
}

/** The optional-value datatype used where the source returns "not found". */
module Wrappers {

  datatype Option<+T> = None | Some(value: T)

}

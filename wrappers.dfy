/** The optional-value datatype the scanner uses for "found at" / "not found". */
module Wrappers {

  datatype Option<+T> = None | Some(value: T)
}

/** The optional-value wrapper used for operations that may have nothing to report. */
module Wrappers {

  datatype Option<+T> = None | Some(value: T)
}

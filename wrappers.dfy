/** The optional value used for Python's `None` results and for failures that end a run. */
module Wrappers {

  datatype Option<+T> = None | Some(value: T)

}

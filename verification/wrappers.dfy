/** The optional value used wherever the pipeline may produce nothing
    (a Python `None` result, a missing cell). */
module Wrappers {

  datatype Option<+T> = None | Some(value: T)
}

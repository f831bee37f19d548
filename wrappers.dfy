/** The optional value used for the pipeline's "nothing found" answers (Python's None). */
module Wrappers {

  datatype Option<+T> = None | Some(value: T)
}

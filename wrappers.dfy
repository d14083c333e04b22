/** The optional value used for the journal state's unset fields (Python's None). */
module Wrappers {

  datatype Option<+T> = None | Some(value: T)
}

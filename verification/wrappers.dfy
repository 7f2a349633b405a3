/** The optional value used wherever the tracker has "None" or "not found". */
module Wrappers {

  datatype Option<+T> = None | Some(value: T)
}

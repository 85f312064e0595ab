/** The optional value used wherever the program reads something that may be absent. */
module Wrappers {

  /** `None` stands for Python's `None` (or a missing dict entry / attribute). */
  datatype Option<+T> = None | Some(value: T)
}

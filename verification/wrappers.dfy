/** The optional value used where the solver may leave a result unset. */
module Wrappers {

  /** `None` stands for a value the program never assigned. */
  datatype Option<+T> = None | Some(value: T)
}

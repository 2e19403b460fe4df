/** The optional value used across the model for results a JavaScript call may not produce. */
module Wrappers {

  /** `None` stands for a call that throws or a value that is `undefined`. */
  datatype Option<+T> = None | Some(value: T)
}

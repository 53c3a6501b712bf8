/** The optional-value datatype used for results that may be absent. */
module Wrappers {

  /** None stands for a failed step; Some carries its result. */
  datatype Option<+T> = None | Some(value: T)
}

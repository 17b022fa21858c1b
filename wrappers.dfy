/** The optional-value datatype shared by the rest of the model. */
module Wrappers {

  /** An optional value: a parse that may fail, a checker that may be absent. */
  datatype Option<+T> = None | Some(value: T)
}

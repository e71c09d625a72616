/** The optional value used by the searches and matchers of the model. */
module Wrappers {

  datatype Option<+T> = None | Some(value: T)
}

/** The optional value used throughout the model for "no value": a rejected reply,
    a missing user, an input stream that ended. */
module Wrappers {
  datatype Option<+T> = None | Some(value: T)
}

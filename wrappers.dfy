/** A value that may be missing, shared by the text layer, the parser and
    the event handler. */
module Wrappers {
  datatype Option<T> = None | Some(value: T)
}

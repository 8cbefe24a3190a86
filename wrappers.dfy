/** The optional value the model uses wherever the source may produce nothing:
    a settings write that does not happen, a regular-expression search that fails. */
module Wrappers {

  datatype Option<+T> = None | Some(value: T)
}

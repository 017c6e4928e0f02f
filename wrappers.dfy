/** An optional value: an unset attribute, a reference that did not resolve,
    or an ancestor that a node does not have. */
module Wrappers {

  datatype Option<+T> = None | Some(value: T)
}

/** The optional values the engine receives from its host: a prompt that may
    be cancelled, a drop that may or may not land on another chip, a lookup
    that may find nothing. */
module Wrappers {
  datatype Option<+T> = None | Some(value: T)
}

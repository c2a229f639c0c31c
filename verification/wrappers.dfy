/** The optional value returned by the engine's bounds-checked queries. */
module Wrappers {

  datatype Option<+T> = None | Some(value: T)
}

/** A nullable Kotlin value (`T?`), and the "loaded" / "not available" outcome of a data-source read. */
module Wrappers {

  datatype Option<+T> = None | Some(value: T)
}

/** The optional value shared by the matcher and the renderer. */
module Wrappers {
  datatype Option<T> = None | Some(value: T)
}

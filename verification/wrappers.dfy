/** The optional value shared by the browser-side and server-side modules. */
module Wrappers {
  datatype Option<T> = None | Some(value: T)
}

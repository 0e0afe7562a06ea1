/** The optional value used where the editor's C code returns NULL or waits for more input. */
module Wrappers {
  datatype Option<+T> = None | Some(value: T)
}

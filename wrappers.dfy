/** The optional value used for the editor's "returns -1 on failure" paths. */
module Wrappers {
  datatype Option<+T> = None | Some(value: T)
}

/** The optional value shared by the other modules: a line that does not
    parse, a file that cannot be opened, a constructor whose assertion
    fails. */
module Wrappers {
  datatype Option<T> = None | Some(value: T)
}

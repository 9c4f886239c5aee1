/** The optional value used for JavaScript's NaN: a parse that finds no digits is None. */
module Wrappers {

  datatype Option<+T> = None | Some(value: T)
}

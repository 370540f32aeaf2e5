/** The usual optional-value datatype: a SQL NULL, an absent row, an unbound attribute. */
module Wrappers {

  datatype Option<+T> = None | Some(value: T)
}

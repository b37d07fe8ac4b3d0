/** The optional value used for a row that a select may not find and for a
    clock colour that may be missing (JavaScript `undefined` or SQL NULL). */
module Wrappers {
  datatype Option<+T> = None | Some(value: T)
}

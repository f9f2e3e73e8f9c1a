/** The usual Some/None datatype, used for searches that may find nothing
    and for parsers that may reject their input. */
module Wrappers {

  datatype Option<+T> = None | Some(value: T)
}

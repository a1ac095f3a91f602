/** The usual Some/None datatype, for values Python represents as "missing or None". */
module Wrappers {

  datatype Option<+T> = None | Some(value: T)

}

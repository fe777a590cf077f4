/** The optional value used for results that may be missing (a failed parse, an absent header). */
module Wrappers {

  datatype Option<+T> = None | Some(value: T)
}

/** The nullable values of the record (`number | null`) as an option type. */
module Wrappers {

  datatype Option<+T> = None | Some(value: T)
}

/** The nullable values of the source (`string | null`) as an Option. */
module Wrappers {
  datatype Option<+T> = None | Some(value: T)
}

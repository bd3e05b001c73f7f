/** The optional value used wherever the scripts return "nothing" (None, a missing key, a failed parse). */
module Wrappers {
  datatype Option<+T> = None | Some(value: T)
}

/** Option type used for the results of decoding and parsing. */
module Wrappers {
  datatype Option<+T> = None | Some(value: T)
}

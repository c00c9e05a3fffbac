/** A value that may be absent: Java's nullable references (a metadata value,
    an optional configuration string, an end date) are modelled with it. */
module Wrappers {

  datatype Option<+T> = None | Some(value: T)
}

/** The optional value used wherever the source has a value or nothing
    (a failed decode, a missing model answer). */
module Wrappers {

  datatype Option<+T> = None | Some(value: T)
}

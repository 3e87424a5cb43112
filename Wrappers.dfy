/** The optional value used where the program works with a value that may be absent
    (a `null` array in the drop data, a codec call that throws). */
module Wrappers {

  datatype Option<T> = None | Some(value: T)
}

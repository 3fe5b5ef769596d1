/** The Option type used for values that may be absent (a missing EXIF block,
    a failed parse, an operation that raised). */
module Wrappers {

  datatype Option<+T> = None | Some(value: T)
}

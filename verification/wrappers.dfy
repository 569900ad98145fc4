/** Absent-or-present values. A Go slice that may be nil is an `Option`:
    `None` is the nil slice, `Some([])` an empty but non-nil one. */
module Wrappers {

  datatype Option<+T> = None | Some(value: T)
}

/** Failure-compatible helper used for the I/O results the core consumes
    (a directory listing, a file's contents, a probed address). */
module Wrappers {

  /** `None` stands for the Go call that returned a non-nil error. */
  datatype Option<+T> = None | Some(value: T)
}

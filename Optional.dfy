/** The absent-or-present value that stands for a Java reference that may be null. */
module Optional {

  datatype Option<+T> = None | Some(value: T)
}

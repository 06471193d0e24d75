/** The absent-or-present wrapper used wherever a Python step may fail or a lookup may miss. */
module Optional {

  datatype Option<+T> = None | Some(value: T)
}

/** Python's `None` for the fields of a tree node that may be unset. */
module Optional {

  datatype Option<+T> = None | Some(value: T)
}

/** A value that may be absent: the model of a pointer that may be NULL. */
module Optional {

  datatype Option<+T> = None | Some(value: T)
}

/** A value that may be absent: an unset variable, a missing file, a refused operation. */
module Options {

  datatype Option<T> = None | Some(value: T)
}

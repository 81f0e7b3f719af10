/** Small value types shared by the other modules. */
module Common {

  /** A value that may be absent. */
  datatype Option<T> = None | Some(value: T)
}

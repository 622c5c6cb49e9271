/** Small shared datatypes. */
module Common {

  /** A value that may be absent: Python's `None` or a present value. */
  datatype Option<T> = None | Some(value: T)
}

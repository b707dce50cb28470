/** Small helper types shared by the modules of this model. */
module Common {

  /** A value that may be missing: JavaScript's `null`/`undefined` versus a present value. */
  datatype Option<T> = None | Some(value: T)
}

/** Small failure-carrying datatypes shared by the licensing model. */
module Wrappers {

  /** Python's `None` or a present value. */
  datatype Option<+T> = None | Some(value: T)

  /** The outcome of a read the host performs (a file, a subprocess): either the
      value read, or the text of the exception the read raised. */
  datatype Loaded<+T> = Loaded(value: T) | LoadError(message: string)
}

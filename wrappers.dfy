/** The optional value used wherever the application can fail on a path
    that the model keeps instead of excluding. */
module Wrappers {
  datatype Option<+T> = None | Some(value: T)
}

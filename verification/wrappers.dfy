/** The optional result shared by the decoders of this model. */
module Wrappers {

  /** An optional result: `None` marks a rejected input. */
  datatype Option<+T> = None | Some(value: T)
}

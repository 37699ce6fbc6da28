/** The optional-value type the model uses for a null pointer, a failed
    `save` and a decoder that does not recognise its input. */
module Wrappers {

  datatype Option<+T> = None | Some(value: T)
}

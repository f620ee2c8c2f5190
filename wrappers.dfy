/** The optional value used where the tracer keeps a null pointer or a boolean
    result paired with out-parameters. */
module Wrappers {

  datatype Option<+T> = None | Some(value: T)
}

/** The optional value shared by the modules of this model (a C pointer that may be NULL). */
module Wrappers {

  datatype Option<+T> = None | Some(value: T)

}

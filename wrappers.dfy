/** The optional value the service returns where PHP returns `?string`. */
module Wrappers {

  datatype Option<+T> = None | Some(value: T)
}

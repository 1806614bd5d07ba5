/** The optional value used for "not found" results and for the matcher's
    "no best distance yet" state. */
module Wrappers {

  datatype Option<+T> = None | Some(value: T)

}

/** The `Option` type the collections use for "absent" results. */
module Wrappers {

  datatype Option<+T> = None | Some(value: T)
}

/** The optional value the source expresses with `null`. */
module Wrappers {

  datatype Option<+T> = None | Some(value: T)
}

/** The optional value used for settings that the build file may leave unset (Java `null`). */
module Wrappers {

  datatype Option<+T> = None | Some(value: T)
}

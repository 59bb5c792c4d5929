/** The optional value used for the JavaScript `null` of the to-do app. */
module Wrappers {

  datatype Option<+T> = None | Some(value: T)
}
